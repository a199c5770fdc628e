/** What the header file says about remote rows where the code does something else, and when the
    two agree. */
module TcpDocumented {
  import opened Bytes
  import opened Wrappers
  import opened TcpParse
  import opened CounterTable
  import opened TcpEngine
  import opened TcpTheorems
  import SynCache

  // ---- Remote ports: "0 if mixed" ----

  predicate About(p: Packet, key: Addr) {
    Orient(p).remote == key
  }

  ghost predicate Mixed(pkts: seq<Packet>, key: Addr) {
    exists a, b :: && 0 <= a < b < |pkts| && About(pkts[a], key) && About(pkts[b], key)
                   && Orient(pkts[a]).remotePort != Orient(pkts[b]).remotePort
  }

  /** The port that the header file describes: the one of all packets about the remote, or 0. */
  ghost predicate DocumentedPort(pkts: seq<Packet>, key: Addr, port: nat) {
    if Mixed(pkts, key) then port == 0
    else exists a :: 0 <= a < |pkts| && About(pkts[a], key) && Orient(pkts[a]).remotePort == port
  }

  /** Packet n is the latest about a remote. */
  ghost predicate Latest(pkts: seq<Packet>, key: Addr, n: nat) {
    && n < |pkts| && About(pkts[n], key)
    && forall j :: n < j < |pkts| ==> !About(pkts[j], key)
  }

  /** In every run, for the latest packet n about a row's remote: the row shows the documented port
      if and only if the remote's ports agree or packet n has port 0. This holds over all packets
      since the reset, and over those since any packet up to n. */
  lemma PortAsDocumentedIff(prefixLen: nat, evs: seq<Event>, i: nat, from: nat, n: nat)
    requires i < |Run(prefixLen, evs).remotes|
    requires from <= n && Latest(Fed(evs), Run(prefixLen, evs).remotes[i].key, n)
    ensures var row, pkts := Run(prefixLen, evs).remotes[i], Fed(evs)[from..];
            DocumentedPort(pkts, row.key, row.extra.remotePort)
            <==> (!Mixed(pkts, row.key) || Orient(Fed(evs)[n]).remotePort == 0)
  {
    RowsShowLast(prefixLen, evs);
    var row, pkts := Run(prefixLen, evs).remotes[i], Fed(evs)[from..];
    assert ShowsSome(row, Fed(evs));
    var m: nat :| ShowsLast(row, Fed(evs), m);
    assert About(Fed(evs)[m], row.key) && m == n;
    assert pkts[n - from] == Fed(evs)[n];
  }

  // ---- Repeated SYNs: per remote, local and remote port ----

  predicate SameEnds(p: Packet, q: Packet) {
    var a, b := Orient(p), Orient(q);
    a.remote == b.remote && a.remotePort == b.remotePort && a.localPort == b.localPort
  }

  /** The repeat that the header file describes: a SYN after one with the same remote and ports. */
  predicate DocumentedRepeat(pkts: seq<Packet>, i: nat)
    requires i < |pkts|
  {
    IsSyn(pkts[i]) && exists j :: 0 <= j < i && IsSyn(pkts[j]) && SameEnds(pkts[j], pkts[i])
  }

  /** A SYN that was looked up and not found in the cache. */
  predicate Missed(pkts: seq<Packet>, i: nat)
    requires i < |pkts|
  {
    IsQuery(pkts[i]) && !IsRepeat(pkts, i)
  }

  // The marked ones among the first n.

  function CountTrue(marks: seq<bool>, n: nat): nat
    requires n <= |marks|
  {
    if n == 0 then 0 else CountTrue(marks, n - 1) + One(marks[n - 1])
  }

  function Picked<T>(s: seq<T>, marks: seq<bool>, n: nat): (r: seq<T>)
    requires n <= |s| == |marks|
    ensures |r| == CountTrue(marks, n)
  {
    if n == 0 then [] else Picked(s, marks, n - 1) + if marks[n - 1] then [s[n - 1]] else []
  }

  lemma {:induction false} PickedAt<T>(s: seq<T>, marks: seq<bool>, n: nat, j: nat)
    requires j < n <= |s| == |marks| && marks[j]
    ensures CountTrue(marks, j) < CountTrue(marks, n) && Picked(s, marks, n)[CountTrue(marks, j)] == s[j]
  {
    if j < n - 1 {
      PickedAt(s, marks, n - 1, j);
    }
  }

  lemma {:induction false} PickedFrom<T>(s: seq<T>, marks: seq<bool>, n: nat, m: nat) returns (j: nat)
    requires n <= |s| == |marks| && m < CountTrue(marks, n)
    ensures j < n && marks[j] && CountTrue(marks, j) == m && s[j] == Picked(s, marks, n)[m]
  {
    if m < CountTrue(marks, n - 1) {
      j := PickedFrom(s, marks, n - 1, m);
    } else {
      j := n - 1;
    }
  }

  function MissMarks(pkts: seq<Packet>): (marks: seq<bool>)
    ensures |marks| == |pkts| && forall i :: 0 <= i < |pkts| ==> marks[i] == Missed(pkts, i)
  {
    seq(|pkts|, i requires 0 <= i < |pkts| => Missed(pkts, i))
  }

  function Tuples(pkts: seq<Packet>): (s: seq<SynCache.Tuple>)
    ensures |s| == |pkts| && forall i :: 0 <= i < |pkts| ==> s[i] == TupleOf(pkts[i])
  {
    seq(|pkts|, i requires 0 <= i < |pkts| => TupleOf(pkts[i]))
  }

  /** How many of the first n packets missed. */
  function MissCount(pkts: seq<Packet>, n: nat): nat
    requires n <= |pkts|
  {
    CountTrue(MissMarks(pkts), n)
  }

  lemma OneMoreQuery(pkts: seq<Packet>, n: nat)
    requires n < |pkts|
    ensures SynCache.Misses(Queries(pkts[..n + 1]))
            == SynCache.Misses(Queries(pkts[..n])) + if Missed(pkts, n) then [TupleOf(pkts[n])] else []
  {
    assert pkts[..n + 1][..n] == pkts[..n];
    if IsQuery(pkts[n]) {
      NotedQuery(Queries(pkts[..n]), TupleOf(pkts[n]));
    }
  }

  /** The cache's misses are those of the packets. */
  lemma {:induction false} MissesArePicked(pkts: seq<Packet>, n: nat)
    requires n <= |pkts|
    ensures SynCache.Misses(Queries(pkts[..n])) == Picked(Tuples(pkts), MissMarks(pkts), n)
  {
    if n > 0 {
      MissesArePicked(pkts, n - 1);
      OneMoreQuery(pkts, n - 1);
    }
  }

  /** The four-tuple of packet i was missed before, and at most 64 misses ago. */
  predicate Remembered(pkts: seq<Packet>, i: nat)
    requires i < |pkts|
  {
    && IsQuery(pkts[i])
    && exists j :: && 0 <= j < i && Missed(pkts, j) && TupleOf(pkts[j]) == TupleOf(pkts[i])
                   && MissCount(pkts, i) - MissCount(pkts, j) <= 64
  }

  lemma RepeatIsRemembered(pkts: seq<Packet>, i: nat)
    requires i < |pkts| && IsRepeat(pkts, i)
    ensures Remembered(pkts, i)
  {
    MissesArePicked(pkts, i);
    var misses := Picked(Tuples(pkts), MissMarks(pkts), i);
    var m := WindowFrom(misses, TupleOf(pkts[i]));
    var j := PickedFrom(Tuples(pkts), MissMarks(pkts), i, m);
    assert Missed(pkts, j);
  }

  lemma WindowFrom(misses: seq<SynCache.Tuple>, t: SynCache.Tuple) returns (m: nat)
    requires t in SynCache.Window(misses)
    ensures m < |misses| && misses[m] == t && |misses| - m <= 64
  {
    var w := SynCache.Window(misses);
    var k :| 0 <= k < |w| && w[k] == t;
    m := |misses| - |w| + k;
  }

  lemma RememberedIsRepeat(pkts: seq<Packet>, i: nat)
    requires i < |pkts| && Remembered(pkts, i)
    ensures IsRepeat(pkts, i)
  {
    var j :| && 0 <= j < i && Missed(pkts, j) && TupleOf(pkts[j]) == TupleOf(pkts[i])
             && MissCount(pkts, i) - MissCount(pkts, j) <= 64;
    MissesArePicked(pkts, i);
    PickedAt(Tuples(pkts), MissMarks(pkts), i, j);
    SynCache.RecentInWindow(Picked(Tuples(pkts), MissMarks(pkts), i), MissCount(pkts, j));
  }

  /** A SYN counts as a repeat if and only if its own four-tuple is remembered. */
  lemma RepeatIff(pkts: seq<Packet>, i: nat)
    requires i < |pkts|
    ensures IsRepeat(pkts, i) <==> Remembered(pkts, i)
  {
    if IsRepeat(pkts, i) {
      RepeatIsRemembered(pkts, i);
    }
    if Remembered(pkts, i) {
      RememberedIsRepeat(pkts, i);
    }
  }

  lemma {:induction false} QueryFrom(pkts: seq<Packet>, n: nat, t: SynCache.Tuple)
    requires n <= |pkts|
    ensures t in Queries(pkts[..n]) <==> exists j :: 0 <= j < n && IsQuery(pkts[j]) && TupleOf(pkts[j]) == t
  {
    if n > 0 {
      QueryFrom(pkts, n - 1, t);
      assert pkts[..n][..n - 1] == pkts[..n - 1];
    }
  }

  /** The four-tuples that were looked up for the first n packets. */
  function LookedUp(pkts: seq<Packet>, n: nat): (e: set<SynCache.Tuple>)
    requires n <= |pkts|
    ensures forall t :: t in e <==> exists j :: 0 <= j < n && IsQuery(pkts[j]) && TupleOf(pkts[j]) == t
  {
    set j | 0 <= j < n && IsQuery(pkts[j]) :: TupleOf(pkts[j])
  }

  lemma LookedUpIsQueried(pkts: seq<Packet>, n: nat)
    requires n <= |pkts|
    ensures LookedUp(pkts, n) == SynCache.Elements(Queries(pkts[..n]))
  {
    forall t
      ensures t in LookedUp(pkts, n) <==> t in Queries(pkts[..n])
    {
      QueryFrom(pkts, n, t);
    }
  }

  /** While no more than 64 different four-tuples were looked up, exactly those are remembered. */
  lemma RememberedWhileFew(pkts: seq<Packet>, i: nat)
    requires i < |pkts| && |LookedUp(pkts, i)| <= 64
    ensures Remembered(pkts, i) <==> IsQuery(pkts[i]) && TupleOf(pkts[i]) in LookedUp(pkts, i)
  {
    RepeatIff(pkts, i);
    LookedUpIsQueried(pkts, i);
    SynCache.ExactWhileSmall(Queries(pkts[..i]));
  }

  lemma SameTuple(p: Packet, q: Packet)
    requires IsQuery(p) && IsQuery(q) && TupleOf(p) == TupleOf(q)
    ensures Orient(p) == Orient(q)
  {
  }

  /** A packet is looked up exactly when it is an IPv4 SYN between addresses other than 0.0.0.0, and
      two such are looked up alike exactly when addresses and ports agree. */
  lemma QueryIff(p: Packet, q: Packet)
    ensures IsQuery(p) <==> p.flags / 2 % 2 == 1 && p.src.V4? && p.dst.V4? && p.src != V4(0) && p.dst != V4(0)
    ensures IsQuery(p) && IsQuery(q) ==>
              (TupleOf(p) == TupleOf(q)
               <==> p.src == q.src && p.dst == q.dst && p.srcPort == q.srcPort && p.dstPort == q.dstPort)
  {
  }

  /** So the code counts no repeat that is not a documented one, and the two agree on a packet if
      and only if no earlier SYN has its remote and ports, or its own four-tuple is remembered. */
  lemma RepeatsAgreeIff(pkts: seq<Packet>, i: nat)
    requires i < |pkts|
    ensures IsRepeat(pkts, i) ==> DocumentedRepeat(pkts, i)
    ensures (IsRepeat(pkts, i) <==> DocumentedRepeat(pkts, i))
            <==> (!DocumentedRepeat(pkts, i) || Remembered(pkts, i))
  {
    RepeatIff(pkts, i);
    if Remembered(pkts, i) {
      var j :| 0 <= j < i && Missed(pkts, j) && TupleOf(pkts[j]) == TupleOf(pkts[i]);
      SameTuple(pkts[j], pkts[i]);
    }
  }

  /** In a run of few four-tuples, on the packets alone: the two agree if and only if no earlier
      SYN has the packet's remote and ports, or an earlier one has its very four-tuple. */
  lemma FewRepeatsAgreeIff(pkts: seq<Packet>, i: nat)
    requires i < |pkts| && |LookedUp(pkts, i)| <= 64
    ensures (IsRepeat(pkts, i) <==> DocumentedRepeat(pkts, i))
            <==> (!DocumentedRepeat(pkts, i) || (IsQuery(pkts[i]) && TupleOf(pkts[i]) in LookedUp(pkts, i)))
  {
    RepeatsAgreeIff(pkts, i);
    RememberedWhileFew(pkts, i);
  }

  // Which packets with a selected remote are documented repeats, counted ones, and documented
  // ones that are overlooked because their own four-tuple is not remembered.

  predicate Overlooked(pkts: seq<Packet>, i: nat)
    requires i < |pkts|
  {
    DocumentedRepeat(pkts, i) && !Remembered(pkts, i)
  }

  function DocumentedMarks(pkts: seq<Packet>, f: Addr -> bool): (marks: seq<bool>)
    ensures |marks| == |pkts|
    ensures forall i :: 0 <= i < |marks| ==> marks[i] == (f(Orient(pkts[i]).remote) && DocumentedRepeat(pkts, i))
  {
    seq(|pkts|, i requires 0 <= i < |pkts| => f(Orient(pkts[i]).remote) && DocumentedRepeat(pkts, i))
  }

  function CountedMarks(pkts: seq<Packet>, f: Addr -> bool): (marks: seq<bool>)
    ensures |marks| == |pkts|
    ensures forall i :: 0 <= i < |marks| ==> marks[i] == (f(Orient(pkts[i]).remote) && IsRepeat(pkts, i))
  {
    seq(|pkts|, i requires 0 <= i < |pkts| => f(Orient(pkts[i]).remote) && IsRepeat(pkts, i))
  }

  function OverlookedMarks(pkts: seq<Packet>, f: Addr -> bool): (marks: seq<bool>)
    ensures |marks| == |pkts|
    ensures forall i :: 0 <= i < |marks| ==> marks[i] == (f(Orient(pkts[i]).remote) && Overlooked(pkts, i))
  {
    seq(|pkts|, i requires 0 <= i < |pkts| => f(Orient(pkts[i]).remote) && Overlooked(pkts, i))
  }

  lemma OverlookedIsUncounted(pkts: seq<Packet>, i: nat)
    requires i < |pkts|
    ensures One(DocumentedRepeat(pkts, i)) == One(IsRepeat(pkts, i)) + One(Overlooked(pkts, i))
  {
    RepeatsAgreeIff(pkts, i);
    RepeatIff(pkts, i);
  }

  lemma {:induction false} CountsAdd(a: seq<bool>, b: seq<bool>, c: seq<bool>, n: nat)
    requires n <= |a| == |b| == |c|
    requires forall i :: 0 <= i < n ==> One(a[i]) == One(b[i]) + One(c[i])
    ensures CountTrue(a, n) == CountTrue(b, n) + CountTrue(c, n)
  {
    if n > 0 {
      CountsAdd(a, b, c, n - 1);
    }
  }

  lemma {:induction false} NoneMarked(marks: seq<bool>, n: nat)
    requires n <= |marks|
    ensures CountTrue(marks, n) == 0 <==> forall i :: 0 <= i < n ==> !marks[i]
  {
    if n > 0 {
      NoneMarked(marks, n - 1);
    }
  }

  lemma {:induction false} TallyIsCounted(pkts: seq<Packet>, n: nat, f: Addr -> bool)
    requires n <= |pkts|
    ensures Tally(pkts, n, f, Retrans) == CountTrue(CountedMarks(pkts, f), n)
  {
    if n > 0 {
      TallyIsCounted(pkts, n - 1, f);
      OneMoreTally(pkts, n - 1, f);
      assert CountTrue(CountedMarks(pkts, f), n) == CountTrue(CountedMarks(pkts, f), n - 1) + One(CountedMarks(pkts, f)[n - 1]);
    }
  }

  lemma OneMoreTally(pkts: seq<Packet>, i: nat, f: Addr -> bool)
    requires i < |pkts|
    ensures Tally(pkts, i + 1, f, Retrans) == Tally(pkts, i, f, Retrans) + One(CountedMarks(pkts, f)[i])
  {
    assert Adds(pkts, i, Retrans) == One(IsRepeat(pkts, i));
  }

  /** How many documented repeats there are with a selected remote. */
  function DocumentedTally(pkts: seq<Packet>, f: Addr -> bool): nat {
    CountTrue(DocumentedMarks(pkts, f), |pkts|)
  }

  function OverlookedTally(pkts: seq<Packet>, f: Addr -> bool): nat {
    CountTrue(OverlookedMarks(pkts, f), |pkts|)
  }

  lemma TalliesDiffer(pkts: seq<Packet>, f: Addr -> bool)
    ensures DocumentedTally(pkts, f) == Tally(pkts, |pkts|, f, Retrans) + OverlookedTally(pkts, f)
  {
    var a, b, c := DocumentedMarks(pkts, f), CountedMarks(pkts, f), OverlookedMarks(pkts, f);
    forall i | 0 <= i < |pkts|
      ensures One(a[i]) == One(b[i]) + One(c[i])
    {
      OverlookedIsUncounted(pkts, i);
    }
    CountsAdd(a, b, c, |pkts|);
    TallyIsCounted(pkts, |pkts|, f);
  }

  lemma NoneOverlooked(pkts: seq<Packet>, f: Addr -> bool)
    ensures OverlookedTally(pkts, f) == 0
            <==> forall i :: 0 <= i < |pkts| && f(Orient(pkts[i]).remote) ==> !Overlooked(pkts, i)
  {
    NoneMarked(OverlookedMarks(pkts, f), |pkts|);
    assert forall i :: 0 <= i < |pkts| ==>
        OverlookedMarks(pkts, f)[i] == (f(Orient(pkts[i]).remote) && Overlooked(pkts, i));
  }

  /** For every set of remotes, in every run: its rows, live and evicted, count as many repeats as
      the header file describes, less those that were overlooked: the SYNs with the remote and
      ports of an earlier one whose own four-tuple is not remembered. The two are equal if and
      only if there are none. */
  lemma RepeatCountsAgreeIff(prefixLen: nat, evs: seq<Event>, f: Addr -> bool)
    ensures var pkts := Fed(evs);
            var counted := RemoteSum(Run(prefixLen, evs), f, Retrans);
            && DocumentedTally(pkts, f) == counted + OverlookedTally(pkts, f)
            && (DocumentedTally(pkts, f) == counted
                <==> forall i :: 0 <= i < |pkts| && f(Orient(pkts[i]).remote) ==> !Overlooked(pkts, i))
  {
    TablesAreTallies(prefixLen, evs, f, Retrans);
    TalliesDiffer(Fed(evs), f);
    NoneOverlooked(Fed(evs), f);
  }

  lemma FewerLookedUp(pkts: seq<Packet>, i: nat)
    requires i <= |pkts|
    ensures |LookedUp(pkts, i)| <= |LookedUp(pkts, |pkts|)|
  {
    SynCache.SubsetSize(LookedUp(pkts, i), LookedUp(pkts, |pkts|));
  }

  /** For every run of no more than 64 different four-tuples, on its packets alone: the rows of a
      set of remotes count as many repeats as the header file describes if and only if each SYN
      that has the remote and ports of an earlier one is an IPv4 SYN with the very four-tuple of
      an earlier one. */
  lemma FewCountsAgreeIff(prefixLen: nat, evs: seq<Event>, f: Addr -> bool)
    requires |LookedUp(Fed(evs), |Fed(evs)|)| <= 64
    ensures var pkts := Fed(evs);
            DocumentedTally(pkts, f) == RemoteSum(Run(prefixLen, evs), f, Retrans)
            <==> forall i :: 0 <= i < |pkts| && f(Orient(pkts[i]).remote) && DocumentedRepeat(pkts, i) ==>
                   IsQuery(pkts[i]) && TupleOf(pkts[i]) in LookedUp(pkts, i)
  {
    var pkts := Fed(evs);
    RepeatCountsAgreeIff(prefixLen, evs, f);
    forall i | 0 <= i < |pkts|
      ensures Overlooked(pkts, i)
              <==> DocumentedRepeat(pkts, i) && !(IsQuery(pkts[i]) && TupleOf(pkts[i]) in LookedUp(pkts, i))
    {
      FewerLookedUp(pkts, i);
      RememberedWhileFew(pkts, i);
    }
  }

  // ---- Two runs on which they differ ----

  const SYN: byte := 2
  const PHONE: nat := 0x0a00_0001
  const LAPTOP: nat := 0x0a00_0002
  const SERVER: nat := 0x0808_0808

  function Ip(src: nat): Ip4Header {
    Ip4Header(5, 0, 40, [0, 0, 64, 0, 64], [0, 0], src, SERVER, [])
  }

  function Tcp(port: nat): TcpHeader {
    TcpHeader(50000, port, 0, [0, 0, 0, 0, 80], SYN)
  }

  /** A SYN to the server's port from a local host's port 50000. */
  function Syn(src: nat, port: nat): seq<byte>
    requires src < U32 && port < U16
  {
    Ip(src).Build() + Tcp(port).Build() + []
  }

  function Parsed(src: nat, port: nat): Packet {
    RawPacket(V4(src), V4(SERVER), 50000, port, SYN, false, 40, 0)
  }

  lemma SynParses(src: nat, port: nat)
    requires src < U32 && port < U16
    ensures |Syn(src, port)| > 0 && Parse(Syn(src, port)) == Some(Parsed(src, port))
  {
    ParseBuilt4(Ip(src), Tcp(port), []);
  }

  lemma FedTwo(a: seq<byte>, b: seq<byte>, p: Packet, q: Packet)
    requires |a| > 0 && |b| > 0 && Parse(a) == Some(p) && Parse(b) == Some(q)
    ensures Fed([Feed(a, 0), Feed(b, 0)]) == [p, q]
  {
    var evs := [Feed(a, 0), Feed(b, 0)];
    assert evs[..1] == [Feed(a, 0)] && evs[..1][..0] == [];
    assert Fed(evs[..1]) == [p];
  }

  lemma RowAfterPacket(e: Engine, p: Packet, now: nat)
    requires Fits(e)
    ensures |Apply(e, p, now).remotes| > 0
  {
  }

  lemma RowAfterTwo(prefixLen: nat, a: seq<byte>, b: seq<byte>)
    requires |b| > 0 && Parse(b).Some?
    ensures |Run(prefixLen, [Feed(a, 0), Feed(b, 0)]).remotes| > 0
  {
    var evs := [Feed(a, 0), Feed(b, 0)];
    assert evs[..1] == [Feed(a, 0)];
    RowAfterPacket(Noticed(Run(prefixLen, evs[..1])), Parse(b).value, 0);
  }

  /** Two packets to two ports of one server: its row shows the second port, not 0. */
  lemma MixedPortIsNotZero(prefixLen: nat)
    ensures var evs := [Feed(Syn(PHONE, 443), 0), Feed(Syn(PHONE, 80), 0)];
            var rows := Run(prefixLen, evs).remotes;
            && |rows| > 0 && rows[0].key == V4(SERVER) && rows[0].extra.remotePort == 80
            && !DocumentedPort(Fed(evs), V4(SERVER), 80)
  {
    var evs := [Feed(Syn(PHONE, 443), 0), Feed(Syn(PHONE, 80), 0)];
    SynParses(PHONE, 443);
    SynParses(PHONE, 80);
    FedTwo(Syn(PHONE, 443), Syn(PHONE, 80), Parsed(PHONE, 443), Parsed(PHONE, 80));
    RowAfterTwo(prefixLen, Syn(PHONE, 443), Syn(PHONE, 80));
    RowsShowLast(prefixLen, evs);
    var row := Run(prefixLen, evs).remotes[0];
    assert ShowsSome(row, Fed(evs));
    TwoPorts(Fed(evs), row);
  }

  lemma TwoPorts(pkts: seq<Packet>, row: Remote)
    requires pkts == [Parsed(PHONE, 443), Parsed(PHONE, 80)] && ShowsSome(row, pkts)
    ensures row.key == V4(SERVER) && row.extra.remotePort == 80 && !DocumentedPort(pkts, row.key, 80)
  {
    var n: nat :| ShowsLast(row, pkts, n);
    assert About(pkts[0], V4(SERVER)) && About(pkts[1], V4(SERVER));
    assert Orient(pkts[1]).remote == row.key;
  }

  lemma TwoHosts(pkts: seq<Packet>)
    requires pkts == [Parsed(PHONE, 443), Parsed(LAPTOP, 443)]
    ensures Tally(pkts, 2, Any(), Retrans) == 0 && DocumentedTally(pkts, Any()) == 1
  {
    RepeatIff(pkts, 0);
    RepeatIff(pkts, 1);
    assert TupleOf(pkts[0]) != TupleOf(pkts[1]);
    assert SameEnds(pkts[0], pkts[1]);
    assert Tally(pkts, 1, Any(), Retrans) == 0;
    assert CountTrue(DocumentedMarks(pkts, Any()), 1) == 0;
  }

  /** SYNs of two local hosts from one port to one server: a documented repeat that is not counted. */
  lemma TwoHostsAreNoRepeat(prefixLen: nat)
    ensures var evs := [Feed(Syn(PHONE, 443), 0), Feed(Syn(LAPTOP, 443), 0)];
            && DocumentedTally(Fed(evs), Any()) == 1
            && Run(prefixLen, evs).totals.retrans == 0
  {
    var evs := [Feed(Syn(PHONE, 443), 0), Feed(Syn(LAPTOP, 443), 0)];
    SynParses(PHONE, 443);
    SynParses(LAPTOP, 443);
    FedTwo(Syn(PHONE, 443), Syn(LAPTOP, 443), Parsed(PHONE, 443), Parsed(LAPTOP, 443));
    TwoHostsRun(prefixLen, evs);
  }

  lemma TwoHostsRun(prefixLen: nat, evs: seq<Event>)
    requires Fed(evs) == [Parsed(PHONE, 443), Parsed(LAPTOP, 443)]
    ensures DocumentedTally(Fed(evs), Any()) == 1
    ensures Run(prefixLen, evs).totals.retrans == 0
  {
    TwoHosts(Fed(evs));
    TablesAreTallies(prefixLen, evs, Any(), Retrans);
  }
}
