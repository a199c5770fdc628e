/** What the TCP statistics guarantee about every run of payloads and resets. */
module TcpTheorems {
  import opened Bytes
  import opened Wrappers
  import opened TcpParse
  import opened CounterTable
  import opened TcpEngine
  import SynCache

  // ---- The ledger's packets are the run's packets ----

  /** The TCP packets that a run fed since its last reset. */
  function Fed(evs: seq<Event>): seq<Packet> {
    if |evs| == 0 then []
    else
      var before, ev := Fed(evs[..|evs| - 1]), evs[|evs| - 1];
      if ev.Reset? then []
      else if (ev.Nflog? || ev.Feed?) && |ev.payload| > 0 && Parse(ev.payload).Some?
      then before + [Parse(ev.payload).value]
      else before
  }

  /** The SYN cache queries among some packets. */
  function Queries(pkts: seq<Packet>): seq<SynCache.Tuple> {
    if |pkts| == 0 then []
    else
      var before, p := Queries(pkts[..|pkts| - 1]), pkts[|pkts| - 1];
      if IsQuery(p) then before + [TupleOf(p)] else before
  }

  /** A SYN is a retransmission when its tuple is among the last 64 that missed before it. */
  predicate IsRepeat(pkts: seq<Packet>, i: nat)
    requires i < |pkts|
  {
    IsQuery(pkts[i]) && TupleOf(pkts[i]) in SynCache.Window(SynCache.Misses(Queries(pkts[..i])))
  }

  /** The hits of a state account for these packets, one each and in order. */
  ghost predicate Accounts(e: Engine, pkts: seq<Packet>) {
    && |e.hits| == |pkts|
    && e.misses == SynCache.Misses(Queries(pkts))
    && forall i :: 0 <= i < |pkts| ==>
         && e.hits[i].key == Orient(pkts[i]).remote
         && e.hits[i].c == Delta(pkts[i], IsRepeat(pkts, i))
         && e.hits[i].extra.pkt == pkts[i]
  }

  lemma NotedQuery(qs: seq<SynCache.Tuple>, t: SynCache.Tuple)
    ensures SynCache.Misses(qs + [t]) == SynCache.Noted(SynCache.Misses(qs), t)
  {
    assert (qs + [t])[..|qs + [t]| - 1] == qs;
  }

  /** What a packet adds to the ledger. */
  lemma ApplyLedger(e: Engine, p: Packet, now: nat)
    requires Fits(e)
    ensures var e', repeat := Apply(e, p, now), IsQuery(p) && TupleOf(p) in SynCache.Window(e.misses);
            && |e'.hits| == |e.hits| + 1 && e'.hits[..|e.hits|] == e.hits
            && LastOf(e').key == Orient(p).remote && LastOf(e').c == Delta(p, repeat) && LastOf(e').extra.pkt == p
            && e'.misses == if IsQuery(p) then SynCache.Noted(e.misses, TupleOf(p)) else e.misses
  {
  }

  lemma SameRepeats(pkts: seq<Packet>, p: Packet, i: nat)
    requires i < |pkts|
    ensures IsRepeat(pkts + [p], i) == IsRepeat(pkts, i)
  {
    assert (pkts + [p])[..i] == pkts[..i];
  }

  lemma ApplyAccounts(e: Engine, pkts: seq<Packet>, p: Packet, now: nat)
    requires Fits(e) && Accounts(e, pkts)
    ensures Accounts(Apply(e, p, now), pkts + [p])
  {
    var all := pkts + [p];
    assert all[..|all| - 1] == pkts == all[..|pkts|];
    ApplyLedger(e, p, now);
    NotedQuery(Queries(pkts), TupleOf(p));
    var e' := Apply(e, p, now);
    forall i | 0 <= i < |all|
      ensures e'.hits[i].key == Orient(all[i]).remote && e'.hits[i].c == Delta(all[i], IsRepeat(all, i))
              && e'.hits[i].extra.pkt == all[i]
    {
      if i < |pkts| {
        SameRepeats(pkts, p, i);
        assert e'.hits[..|e.hits|][i] == e'.hits[i];
      } else {
        assert e'.hits[i] == LastOf(e');
      }
    }
  }

  /** In every run the ledger holds exactly the packets fed since the last reset, with the
      counters that their own flags, lengths and SYN history call for. */
  lemma {:induction false} LedgerIsInput(prefixLen: nat, evs: seq<Event>)
    ensures Accounts(Run(prefixLen, evs), Fed(evs))
  {
    if |evs| > 0 {
      var before := evs[..|evs| - 1];
      LedgerIsInput(prefixLen, before);
      var e := Run(prefixLen, before);
      match evs[|evs| - 1] {
        case Nflog(payload, now) => TakeAccounts(e, Fed(before), Parse(payload), LooksNonTcp(payload), now);
        case Feed(payload, now) => TakeAccounts(e, Fed(before), Parse(payload), false, now);
        case _ =>
      }
    }
  }

  lemma TakeAccounts(e: Engine, pkts: seq<Packet>, r: Option<Packet>, nonTcp: bool, now: nat)
    requires Fits(e) && Accounts(e, pkts)
    ensures Accounts(Take(e, r, nonTcp, now), if r.Some? then pkts + [r.value] else pkts)
  {
    if r.Some? {
      ApplyAccounts(Noticed(e), pkts, r.value, now);
    }
  }

  // ---- Conservation ----

  /** In every reachable state each global counter is the sum over the live remote rows plus
      what the evicted rows held. */
  lemma Conservation(prefixLen: nat, evs: seq<Event>, field: Field)
    requires field != Remotes
    ensures var e := Run(prefixLen, evs);
            Count(e.totals, field) == SumWhere(e.remotes, Any(), RemoteWeight(field))
                                      + SumWhere(e.deadRemotes, Any(), RemoteWeight(field))
  {
    Ledger(prefixLen, evs, Any(), Any(), field);
  }

  /** What packet i of a run adds to a counter, read off its flag bits and length. */
  function Adds(pkts: seq<Packet>, i: nat, field: Field): nat
    requires i < |pkts|
  {
    match field
    case Pkts => 1
    case Octets => pkts[i].ipLen
    case Fin => One(pkts[i].flags % 2 == 1)
    case Syn => One(pkts[i].flags / 2 % 2 == 1)
    case Rst => One(pkts[i].flags / 4 % 2 == 1)
    case Retrans => One(IsRepeat(pkts, i))
    case Remotes => 0
  }

  /** The sum of what the first n packets with a selected remote add. */
  function Tally(pkts: seq<Packet>, n: nat, f: Addr -> bool, field: Field): nat
    requires n <= |pkts|
  {
    if n == 0 then 0
    else Tally(pkts, n - 1, f, field) + if f(Orient(pkts[n - 1]).remote) then Adds(pkts, n - 1, field) else 0
  }

  lemma {:induction false} HitsAreTally(e: Engine, pkts: seq<Packet>, n: nat, f: Addr -> bool, field: Field)
    requires Accounts(e, pkts) && n <= |pkts| && field != Remotes
    ensures SumWhere(e.hits[..n], f, HitWeight(field)) == Tally(pkts, n, f, field)
  {
    if n > 0 {
      HitsAreTally(e, pkts, n - 1, f, field);
      assert e.hits[..n][..n - 1] == e.hits[..n - 1];
      HitAdds(e, pkts, n - 1, field);
    }
  }

  lemma HitAdds(e: Engine, pkts: seq<Packet>, i: nat, field: Field)
    requires Accounts(e, pkts) && i < |pkts| && field != Remotes
    ensures HitWeight(field)(e.hits[i]) == Adds(pkts, i, field) && e.hits[i].key == Orient(pkts[i]).remote
  {
  }

  /** For every set of remote addresses, its live and evicted rows hold the tally of the packets
      fed since the last reset; the totals hold the tally of all of them. */
  lemma TablesAreTallies(prefixLen: nat, evs: seq<Event>, f: Addr -> bool, field: Field)
    requires field != Remotes
    ensures var e, pkts := Run(prefixLen, evs), Fed(evs);
            && RemoteSum(e, f, field) == Tally(pkts, |pkts|, f, field)
            && Count(e.totals, field) == Tally(pkts, |pkts|, Any(), field)
  {
    var e, pkts := Run(prefixLen, evs), Fed(evs);
    LedgerIsInput(prefixLen, evs);
    Ledger(prefixLen, evs, f, Any(), field);
    assert e.hits[..|pkts|] == e.hits;
    HitsAreTally(e, pkts, |pkts|, f, field);
    HitsAreTally(e, pkts, |pkts|, Any(), field);
  }

  // ---- What becomes of each payload ----

  datatype Kind = TcpPacket | NonTcp | Unparsable | Refused

  /** An IPv4 header names its protocol in byte 9, an IPv6 header its next header in byte 6. */
  predicate NamesOtherProtocol(payload: seq<byte>) {
    || (|payload| >= 10 && 64 <= payload[0] < 80 && payload[9] != 6)
    || (|payload| >= 7 && 96 <= payload[0] < 112 && payload[6] != 6)
  }

  /** What a payload is counted as: NFLOG payloads that do not parse are told apart, others are not. */
  function KindOf(ev: Event): Kind
    requires ev.Nflog? || ev.Feed?
  {
    if ev.Feed? && |ev.payload| == 0 then Refused
    else if Parse(ev.payload).Some? then TcpPacket
    else if ev.Nflog? && NamesOtherProtocol(ev.payload) then NonTcp
    else Unparsable
  }

  /** How many payloads of a kind a run saw since its last reset. */
  function CountKind(evs: seq<Event>, kind: Kind): nat {
    if |evs| == 0 || evs[|evs| - 1].Reset? then 0
    else
      var ev := evs[|evs| - 1];
      CountKind(evs[..|evs| - 1], kind) + One((ev.Nflog? || ev.Feed?) && KindOf(ev) == kind)
  }

  lemma TakeCounts(e: Engine, r: Option<Packet>, nonTcp: bool, now: nat)
    requires Fits(e)
    ensures var e' := Take(e, r, nonTcp, now);
            && e'.parsed == e.parsed + 1
            && e'.totals.pkts == e.totals.pkts + One(r.Some?)
            && e'.nonTcp == e.nonTcp + One(r.None? && nonTcp)
            && e'.parseFail == e.parseFail + One(r.None? && !nonTcp)
  {
  }

  /** In every run each payload since the last reset is counted once, as what it is. */
  lemma {:induction false} CountedByKind(prefixLen: nat, evs: seq<Event>)
    ensures var e := Run(prefixLen, evs);
            && e.totals.pkts == CountKind(evs, TcpPacket)
            && e.nonTcp == CountKind(evs, NonTcp)
            && e.parseFail == CountKind(evs, Unparsable)
  {
    if |evs| > 0 {
      var before := evs[..|evs| - 1];
      CountedByKind(prefixLen, before);
      if evs[|evs| - 1].Nflog? || evs[|evs| - 1].Feed? {
        StepCounts(Run(prefixLen, before), evs[|evs| - 1]);
      }
    }
  }

  lemma StepCounts(e: Engine, ev: Event)
    requires Fits(e) && (ev.Nflog? || ev.Feed?)
    ensures var e', kind := Step(e, ev), KindOf(ev);
            && e'.totals.pkts == e.totals.pkts + One(kind == TcpPacket)
            && e'.nonTcp == e.nonTcp + One(kind == NonTcp)
            && e'.parseFail == e.parseFail + One(kind == Unparsable)
  {
    if ev.Nflog? {
      assert LooksNonTcp(ev.payload) == NamesOtherProtocol(ev.payload);
      TakeCounts(e, Parse(ev.payload), LooksNonTcp(ev.payload), ev.now);
    } else if |ev.payload| > 0 {
      TakeCounts(e, Parse(ev.payload), false, ev.now);
    }
  }

  // ---- What a row shows of its remote ----

  /** Packet n is the last about this row's remote, and the row shows its local side and ports. */
  ghost predicate ShowsLast(r: Remote, pkts: seq<Packet>, n: nat) {
    && n < |pkts| && Orient(pkts[n]).remote == r.key
    && (forall j :: n < j < |pkts| ==> Orient(pkts[j]).remote != r.key)
    && r.extra.local == Some(Orient(pkts[n]).local)
    && r.extra.remotePort == Orient(pkts[n]).remotePort && r.extra.localPort == Orient(pkts[n]).localPort
  }

  ghost predicate ShowsSome(r: Remote, pkts: seq<Packet>) {
    exists n :: ShowsLast(r, pkts, n)
  }

  ghost predicate AllShowLast(rows: seq<Remote>, pkts: seq<Packet>) {
    forall i :: 0 <= i < |rows| ==> ShowsSome(rows[i], pkts)
  }

  /** The row of a packet's remote shows the packet; every other row stays as it was. */
  lemma TouchRows(e: Engine, p: Packet, d: Counters, now: nat)
    requires Fits(e) && DistinctKeys(e.remotes)
    ensures var rows := TouchRemote(e, Orient(p), d, now).remotes;
            forall i :: 0 <= i < |rows| ==>
              if rows[i].key == Orient(p).remote then ShowsLast(rows[i], [p], 0) && rows[i].extra.lastSeen == now
              else i < |e.remotes| && rows[i] == e.remotes[i]
  {
    PlaceKeeps(e.remotes, Orient(p).remote, REMOTE_MAX, NoInfo);
  }

  lemma ApplyTouches(e: Engine, p: Packet, now: nat)
    requires Fits(e)
    ensures Apply(e, p, now).remotes == TouchRemote(e, Orient(p), Delta(p, Retransmitted(e, p)), now).remotes
  {
  }

  lemma ApplyShowsLast(e: Engine, pkts: seq<Packet>, p: Packet, now: nat)
    requires Sound(e) && AllShowLast(e.remotes, pkts)
    ensures AllShowLast(Apply(e, p, now).remotes, pkts + [p])
  {
    TouchRows(e, p, Delta(p, Retransmitted(e, p)), now);
    ApplyTouches(e, p, now);
    var rows := Apply(e, p, now).remotes;
    forall i | 0 <= i < |rows|
      ensures ShowsSome(rows[i], pkts + [p])
    {
      if rows[i].key == Orient(p).remote {
        assert ShowsLast(rows[i], pkts + [p], |pkts|);
      } else {
        assert ShowsSome(e.remotes[i], pkts);
        var n :| ShowsLast(e.remotes[i], pkts, n);
        assert ShowsLast(rows[i], pkts + [p], n);
      }
    }
  }

  lemma TakeShowsLast(e: Engine, pkts: seq<Packet>, r: Option<Packet>, nonTcp: bool, now: nat)
    requires Sound(e) && AllShowLast(e.remotes, pkts)
    ensures AllShowLast(Take(e, r, nonTcp, now).remotes, if r.Some? then pkts + [r.value] else pkts)
  {
    if r.Some? {
      ApplyShowsLast(e, pkts, r.value, now);
      assert Apply(Noticed(e), r.value, now).remotes == Apply(e, r.value, now).remotes;
    }
  }

  /** In every run each row shows the local address and the ports of the latest packet about its
      remote, as oriented; the ports are never 0 for being mixed, as the header file has it. */
  lemma {:induction false} RowsShowLast(prefixLen: nat, evs: seq<Event>)
    ensures AllShowLast(Run(prefixLen, evs).remotes, Fed(evs))
  {
    if |evs| > 0 {
      var before := evs[..|evs| - 1];
      RowsShowLast(prefixLen, before);
      RunSound(prefixLen, before);
      var e := Run(prefixLen, before);
      match evs[|evs| - 1] {
        case Nflog(payload, now) => TakeShowsLast(e, Fed(before), Parse(payload), LooksNonTcp(payload), now);
        case Feed(payload, now) => TakeShowsLast(e, Fed(before), Parse(payload), false, now);
        case _ =>
      }
    }
  }

  /** A live row holds what its address's packets added since the last reset, less what
      evicted rows of the same address took with them. */
  lemma RemoteRow(prefixLen: nat, evs: seq<Event>, i: nat, field: Field)
    requires i < |Run(prefixLen, evs).remotes|
    ensures var e := Run(prefixLen, evs);
            var own: Addr -> bool := Only(e.remotes[i].key);
            RemoteWeight(field)(e.remotes[i])
              == SumWhere(e.hits, own, HitWeight(field)) - SumWhere(e.deadRemotes, own, RemoteWeight(field))
  {
    var e := Run(prefixLen, evs);
    RunSound(prefixLen, evs);
    Ledger(prefixLen, evs, Only(e.remotes[i].key), Any(), field);
    SumOfOneKey(e.remotes, i, Only(e.remotes[i].key), RemoteWeight(field));
  }

  /** A packet evicts a remote only when the table is full and knows no row for its remote, and
      then evicts a row that no row undercuts. */
  lemma EvictsSmallest(e: Engine, p: Packet, now: nat)
    requires Sound(e)
    ensures var e' := Apply(e, p, now);
            var known := exists i :: 0 <= i < |e.remotes| && e.remotes[i].key == Orient(p).remote;
            && (e'.deadRemotes == e.deadRemotes <==> known || |e.remotes| < 256)
            && (!known && |e.remotes| == 256 ==>
                  exists v :: && 0 <= v < |e.remotes|
                              && e'.deadRemotes == e.deadRemotes + [e.remotes[v]]
                              && e'.remotes[v].key == Orient(p).remote
                              && (forall j :: 0 <= j < |e.remotes| ==> e.remotes[v].c.pkts <= e.remotes[j].c.pkts)
                              && (forall j :: 0 <= j < |e.remotes| && j != v ==> e'.remotes[j] == e.remotes[j]))
  {
    var key := Orient(p).remote;
    PlaceKeeps(e.remotes, key, REMOTE_MAX, NoInfo);
    var at := Place(e.remotes, key, REMOTE_MAX, NoInfo);
    var e' := Apply(e, p, now);
    assert e'.deadRemotes == e.deadRemotes + at.evicted;
    if Find(e.remotes, key) == |e.remotes| && |e.remotes| == REMOTE_MAX {
      assert at.evicted == [e.remotes[at.at]];
      assert e'.remotes[at.at].key == key;
    }
  }

  /** The same for prefixes: only a packet that is rolled up, under a prefix without a row, in a
      full table, evicts one. */
  lemma EvictsSmallestPrefix(e: Engine, p: Packet, now: nat)
    requires Sound(e)
    ensures var e' := Apply(e, p, now);
            var net := RollUp(Orient(p).remote, e.prefixLen);
            var known := net.None? || exists i :: 0 <= i < |e.prefixes| && e.prefixes[i].key == net.value;
            && (e'.deadPrefixes == e.deadPrefixes <==> known || |e.prefixes| < 128)
            && (!known && |e.prefixes| == 128 ==>
                  exists v :: && 0 <= v < |e.prefixes|
                              && e'.deadPrefixes == e.deadPrefixes + [e.prefixes[v]]
                              && e'.prefixes[v].key == net.value
                              && (forall j :: 0 <= j < |e.prefixes| ==> e.prefixes[v].c.pkts <= e.prefixes[j].c.pkts)
                              && (forall j :: 0 <= j < |e.prefixes| && j != v ==> e'.prefixes[j] == e.prefixes[j]))
  {
    var net := RollUp(Orient(p).remote, e.prefixLen);
    if net.Some? {
      PlaceKeeps(e.prefixes, net.value, PREFIX_MAX, 0);
      var at := Place(e.prefixes, net.value, PREFIX_MAX, 0);
      var e' := Apply(e, p, now);
      assert e'.deadPrefixes == e.deadPrefixes + at.evicted;
      if Find(e.prefixes, net.value) == |e.prefixes| && |e.prefixes| == PREFIX_MAX {
        assert at.evicted == [e.prefixes[at.at]];
        assert e'.prefixes[at.at].key == net.value;
      }
    }
  }

  // ---- The prefix table is a second index of the remote table ----

  /** Every hit was rolled up with this prefix length. */
  ghost predicate OneLength(e: Engine, len: nat) {
    e.prefixLen == len && forall i :: 0 <= i < |e.hits| ==> e.hits[i].extra.net == RollUp(e.hits[i].key, len)
  }

  ghost predicate KeepsLength(evs: seq<Event>, len: nat) {
    forall i :: 0 <= i < |evs| ==> (evs[i].SetPrefixLen? ==> evs[i].len == len)
  }

  lemma TakeOneLength(e: Engine, r: Option<Packet>, nonTcp: bool, now: nat, len: nat)
    requires Fits(e) && OneLength(e, len)
    ensures OneLength(Take(e, r, nonTcp, now), len)
  {
  }

  lemma {:induction false} RunOneLength(len: nat, evs: seq<Event>)
    requires KeepsLength(evs, len)
    ensures OneLength(Run(len, evs), len)
  {
    if |evs| > 0 {
      RunOneLength(len, evs[..|evs| - 1]);
      var e := Run(len, evs[..|evs| - 1]);
      match evs[|evs| - 1] {
        case Nflog(payload, now) => TakeOneLength(e, Parse(payload), LooksNonTcp(payload), now, len);
        case Feed(payload, now) => TakeOneLength(e, Parse(payload), false, now, len);
        case _ =>
      }
    }
  }

  lemma {:induction false} RolledHits(hits: seq<Hit>, net: Net, len: nat, field: Field)
    requires forall i :: 0 <= i < |hits| ==> hits[i].extra.net == RollUp(hits[i].key, len)
    ensures SumWhere(hits, Any(), RolledWeight(Only(net), field)) == SumWhere(hits, Inside(net, len), HitWeight(field))
  {
    if |hits| > 0 {
      RolledHits(hits[..|hits| - 1], net, len, field);
    }
  }

  /** For every prefix, in every run with one prefix length: its live and evicted prefix rows
      together hold what the live and evicted rows of its remotes hold, and have counted as
      many remotes as there are such rows. */
  lemma PrefixAgreement(len: nat, evs: seq<Event>, net: Net, field: Field)
    requires KeepsLength(evs, len)
    ensures var e := Run(len, evs);
            PrefixSum(e, Only(net), field) == RemoteSum(e, Inside(net, len), field)
  {
    Ledger(len, evs, Inside(net, len), Only(net), field);
    RunOneLength(len, evs);
    RolledHits(Run(len, evs).hits, net, len, field);
  }

  ghost predicate NeverEvicted(e: Engine, net: Net) {
    forall j :: 0 <= j < |e.deadPrefixes| ==> e.deadPrefixes[j].key != net
  }

  /** A prefix row that was never evicted holds what the rows of its remotes hold, live and
      evicted ones; its remote count is the number of those rows. */
  lemma PrefixRow(len: nat, evs: seq<Event>, i: nat, field: Field)
    requires KeepsLength(evs, len)
    requires var e := Run(len, evs); i < |e.prefixes| && NeverEvicted(e, e.prefixes[i].key)
    ensures var e := Run(len, evs);
            PrefixWeight(field)(e.prefixes[i]) == RemoteSum(e, Inside(e.prefixes[i].key, len), field)
  {
    var e := Run(len, evs);
    RunSound(len, evs);
    PrefixAgreement(len, evs, e.prefixes[i].key, field);
    SumOfOneKey(e.prefixes, i, Only(e.prefixes[i].key), PrefixWeight(field));
    SumOfNoKey(e.deadPrefixes, Only(e.prefixes[i].key), PrefixWeight(field));
  }

  /** Its remote count is the number of its remotes that are in the remote table exactly when
      none of its remotes was ever evicted from there; then all its counters agree too. */
  lemma PrefixRowIsLive(len: nat, evs: seq<Event>, i: nat, field: Field)
    requires KeepsLength(evs, len)
    requires var e := Run(len, evs); i < |e.prefixes| && NeverEvicted(e, e.prefixes[i].key)
    ensures var e := Run(len, evs);
            var inside := Inside(e.prefixes[i].key, len);
            var noneLost := forall j :: 0 <= j < |e.deadRemotes| ==> !inside(e.deadRemotes[j].key);
            && (e.prefixes[i].extra == SumWhere(e.remotes, inside, RemoteWeight(Remotes)) <==> noneLost)
            && (noneLost ==> PrefixWeight(field)(e.prefixes[i]) == SumWhere(e.remotes, inside, RemoteWeight(field)))
  {
    var e := Run(len, evs);
    var inside := Inside(e.prefixes[i].key, len);
    PrefixRow(len, evs, i, field);
    PrefixRow(len, evs, i, Remotes);
    if j :| 0 <= j < |e.deadRemotes| && inside(e.deadRemotes[j].key) {
      DeadNotIdle(len, evs);
      SumAtLeast(e.deadRemotes, j, inside, RemoteWeight(Remotes));
    } else {
      SumOfNoKey(e.deadRemotes, inside, RemoteWeight(field));
      SumOfNoKey(e.deadRemotes, inside, RemoteWeight(Remotes));
    }
  }

  /** While no prefix row has been evicted, every remote that can be rolled up has its prefix's
      row, and no prefix row lacks a remote. */
  lemma PrefixCoverage(len: nat, evs: seq<Event>, net: Net)
    requires KeepsLength(evs, len) && Run(len, evs).deadPrefixes == []
    ensures var e := Run(len, evs);
            (exists i :: 0 <= i < |e.prefixes| && e.prefixes[i].key == net)
              <==> exists j :: 0 <= j < |e.remotes + e.deadRemotes| && RollUp((e.remotes + e.deadRemotes)[j].key, len) == Some(net)
  {
    var e := Run(len, evs);
    var rows := e.remotes + e.deadRemotes;
    RunSound(len, evs);
    PrefixAgreement(len, evs, net, Pkts);
    SumAppend(e.remotes, e.deadRemotes, Inside(net, len), RemoteWeight(Pkts));
    var i := Find(e.prefixes, net);
    if i < |e.prefixes| {
      SumAtLeast(e.prefixes, i, Only(net), PrefixWeight(Pkts));
      if forall j :: 0 <= j < |rows| ==> RollUp(rows[j].key, len) != Some(net) {
        SumOfNoKey(rows, Inside(net, len), RemoteWeight(Pkts));
        assert false;
      }
    } else {
      SumOfNoKey(e.prefixes, Only(net), PrefixWeight(Pkts));
      DeadNotIdle(len, evs);
      forall j | 0 <= j < |rows|
        ensures RollUp(rows[j].key, len) != Some(net)
      {
        if RollUp(rows[j].key, len) == Some(net) {
          SumAtLeast(rows, j, Inside(net, len), RemoteWeight(Pkts));
          assert false;
        }
      }
    }
  }

  lemma TakeDeadNotIdle(e: Engine, r: Option<Packet>, nonTcp: bool, now: nat)
    requires Sound(e) && NoIdleRow(e.deadRemotes)
    ensures NoIdleRow(Take(e, r, nonTcp, now).deadRemotes)
  {
  }

  lemma {:induction false} DeadNotIdle(prefixLen: nat, evs: seq<Event>)
    ensures NoIdleRow(Run(prefixLen, evs).deadRemotes)
  {
    if |evs| > 0 {
      DeadNotIdle(prefixLen, evs[..|evs| - 1]);
      RunSound(prefixLen, evs[..|evs| - 1]);
      var e := Run(prefixLen, evs[..|evs| - 1]);
      match evs[|evs| - 1] {
        case Nflog(payload, now) => TakeDeadNotIdle(e, Parse(payload), LooksNonTcp(payload), now);
        case Feed(payload, now) => TakeDeadNotIdle(e, Parse(payload), false, now);
        case _ =>
      }
    }
  }

  // ---- The loss hint ----

  /** RSTs plus half the repeated SYNs, as a share of control packets, clamped to [0, 1]. */
  function LossHint(c: Counters): real {
    var control := c.syn as real + c.fin as real + c.rst as real;
    if control < 1.0 then 0.0
    else
      var h := (c.rst as real + 0.5 * c.retrans as real) / control;
      if h < 0.0 then 0.0 else if h > 1.0 then 1.0 else h
  }

  /** The share before clamping exceeds 1 exactly when there are more than twice as many repeats
      as SYNs and FINs. */
  lemma ClampFires(c: Counters)
    requires c.syn + c.fin + c.rst >= 1
    ensures ((c.rst as real + 0.5 * c.retrans as real) / (c.syn + c.fin + c.rst) as real > 1.0)
              <==> (c.retrans > 2 * (c.syn + c.fin))
  {
    var control := (c.syn + c.fin + c.rst) as real;
    var bad := c.rst as real + 0.5 * c.retrans as real;
    RatioAboveOne(bad, control);
  }

  lemma ProductSign(x: real, y: real)
    requires y > 0.0
    ensures x * y > 0.0 <==> x > 0.0
    ensures x * y >= 0.0 <==> x >= 0.0
  {
    if x > 0.0 {
      assert x * y > 0.0;
    } else if x < 0.0 {
      assert (-x) * y > 0.0;
    }
  }

  lemma RatioAboveOne(x: real, y: real)
    requires y > 0.0
    ensures x / y > 1.0 <==> x > y
    ensures x >= 0.0 ==> x / y >= 0.0
  {
    var q := x / y;
    assert q * y == x;
    assert (q - 1.0) * y == x - y;
    ProductSign(q - 1.0, y);
    ProductSign(q, y);
  }

  /** In every reachable state neither clamp fires, for the totals and for every row: the hint
      is the share itself, so hint times control packets gives back the bad ones. */
  lemma LossHintUnclamped(prefixLen: nat, evs: seq<Event>, c: Counters)
    requires var e := Run(prefixLen, evs);
             || c == e.totals
             || (exists i :: 0 <= i < |e.remotes| && c == e.remotes[i].c)
             || (exists i :: 0 <= i < |e.prefixes| && c == e.prefixes[i].c)
    ensures 0.0 <= LossHint(c) <= 1.0
    ensures LossHint(c) * (c.syn + c.fin + c.rst) as real == c.rst as real + 0.5 * c.retrans as real
    ensures c.syn + c.fin + c.rst == 0 ==> LossHint(c) == 0.0
  {
    RunSound(prefixLen, evs);
    HintWithinSyn(c);
  }

  lemma HintWithinSyn(c: Counters)
    requires c.retrans <= c.syn
    ensures 0.0 <= LossHint(c) <= 1.0
    ensures LossHint(c) * (c.syn + c.fin + c.rst) as real == c.rst as real + 0.5 * c.retrans as real
    ensures c.syn + c.fin + c.rst == 0 ==> LossHint(c) == 0.0
  {
    var control := c.syn as real + c.fin as real + c.rst as real;
    assert control == (c.syn + c.fin + c.rst) as real;
    if control >= 1.0 {
      RatioAboveOne(c.rst as real + 0.5 * c.retrans as real, control);
    }
  }
}
