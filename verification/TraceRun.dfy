/** Traceroute and mtr runs: probes per TTL, hop statistics, and when a run ends. */
module TraceRun {
  import opened Bytes

  const HOP_MAX: nat := 32
  const PROBES_MAX: nat := 16

  /** What one probe returned: negative for an error, 0 for a timeout, 2 for the destination,
      anything else for a hop on the way. */
  datatype Probe = Probe(code: int, addr: string, rtt: real)

  datatype Hop = Hop(ttl: nat, addr: string, sent: nat, replies: nat, timeouts: nat,
                     lastRtt: real, avgRtt: real, minRtt: real, maxRtt: real, loss: real, reached: bool)

  function InitialHop(ttl: nat): Hop {
    Hop(ttl, "", 0, 0, 0, 0.0, 0.0, 0.0, 0.0, 0.0, false)
  }

  // ---- One hop ----

  predicate Answered(p: Probe) {
    p.code > 0
  }

  predicate AtTarget(p: Probe) {
    p.code == 2
  }

  /** The mean of n values and one more. */
  function MeanWith(avg: real, n: nat, x: real): real {
    (avg * n as real + x) / (n + 1) as real
  }

  /** The hop after one more probe. */
  function Recorded(h: Hop, p: Probe, target: string): Hop {
    var sent := h.sent + 1;
    if !Answered(p) then h.(sent := sent, timeouts := h.timeouts + 1, loss := (h.timeouts + 1) as real / sent as real)
    else
      var n := h.replies + 1;
      h.(sent := sent, replies := n, loss := h.timeouts as real / sent as real,
         addr := if p.addr != "" then p.addr else if AtTarget(p) && target != "" then target else h.addr,
         lastRtt := p.rtt,
         minRtt := if n == 1 || p.rtt < h.minRtt then p.rtt else h.minRtt,
         maxRtt := if n == 1 || p.rtt > h.maxRtt then p.rtt else h.maxRtt,
         avgRtt := if n == 1 then p.rtt else MeanWith(h.avgRtt, h.replies, p.rtt),
         reached := h.reached || AtTarget(p))
  }

  function HopOf(ttl: nat, probes: seq<Probe>, target: string): Hop {
    if |probes| == 0 then InitialHop(ttl)
    else Recorded(HopOf(ttl, probes[..|probes| - 1], target), probes[|probes| - 1], target)
  }

  /** The round-trip times of the answered probes, in order. */
  function Rtts(probes: seq<Probe>): seq<real> {
    if |probes| == 0 then []
    else
      var p := probes[|probes| - 1];
      Rtts(probes[..|probes| - 1]) + if Answered(p) then [p.rtt] else []
  }

  function Sum(s: seq<real>): real {
    if |s| == 0 then 0.0 else Sum(s[..|s| - 1]) + s[|s| - 1]
  }

  ghost predicate Least(x: real, s: seq<real>) {
    x in s && forall i :: 0 <= i < |s| ==> x <= s[i]
  }

  ghost predicate Greatest(x: real, s: seq<real>) {
    x in s && forall i :: 0 <= i < |s| ==> s[i] <= x
  }

  lemma RatioTimes(x: real, d: real)
    requires d > 0.0
    ensures x / d * d == x
  {
  }

  lemma ProductSign(x: real, d: real)
    requires d > 0.0
    ensures x >= 0.0 <==> x * d >= 0.0
  {
  }

  /** A mean of values that are all at least `low` is at least `low`. */
  lemma MeanAbove(mean: real, avg: real, k: real, x: real, low: real)
    requires k > 0.0 && mean * (k + 1.0) == avg * k + x && low <= avg && low <= x
    ensures low <= mean
  {
    ProductSign(avg - low, k);
    assert (mean - low) * (k + 1.0) == (avg - low) * k + (x - low);
    ProductSign(mean - low, k + 1.0);
  }

  /** The running mean stays between the running least and greatest. */
  lemma MeanBounds(avg: real, n: nat, rtt: real, lo: real, hi: real)
    requires 1 <= n && lo <= avg <= hi
    ensures MeanWith(avg, n, rtt) * (n + 1) as real == avg * n as real + rtt
    ensures (if rtt < lo then rtt else lo) <= MeanWith(avg, n, rtt) <= (if rtt > hi then rtt else hi)
  {
    var mean, k := MeanWith(avg, n, rtt), n as real;
    RatioTimes(avg * k + rtt, (n + 1) as real);
    assert mean * (k + 1.0) == avg * k + rtt;
    MeanAbove(mean, avg, k, rtt, if rtt < lo then rtt else lo);
    assert -mean * (k + 1.0) == -avg * k + -rtt;
    MeanAbove(-mean, -avg, k, -rtt, -(if rtt > hi then rtt else hi));
  }

  /** Every probe is counted once, as reply or timeout; the hop reached the target exactly when
      some probe did. */
  ghost predicate Counts(h: Hop, ttl: nat, probes: seq<Probe>) {
    && h.ttl == ttl && h.sent == |probes| == h.replies + h.timeouts && h.replies == |Rtts(probes)|
    && (h.reached <==> exists i :: 0 <= i < |probes| && AtTarget(probes[i]))
  }

  /** Loss is the share of timeouts. */
  ghost predicate Loss(h: Hop) {
    h.sent > 0 ==> h.loss * h.sent as real == h.timeouts as real
  }

  /** Least, greatest and last are those of the round-trip times. */
  ghost predicate Extremes(h: Hop, rtts: seq<real>) {
    h.replies == |rtts| && (|rtts| > 0 ==>
      Least(h.minRtt, rtts) && Greatest(h.maxRtt, rtts) && h.lastRtt == rtts[|rtts| - 1])
  }

  /** The mean times the replies is the sum of their times, and lies between the extremes. */
  ghost predicate Mean(h: Hop, rtts: seq<real>) {
    h.avgRtt * |rtts| as real == Sum(rtts) && (|rtts| > 0 ==> h.minRtt <= h.avgRtt <= h.maxRtt)
  }

  ghost predicate Figures(h: Hop, ttl: nat, probes: seq<Probe>) {
    Counts(h, ttl, probes) && Loss(h) && Extremes(h, Rtts(probes)) && Mean(h, Rtts(probes))
  }

  /** A hop's figures mean what they say, for any probe outcomes. */
  lemma {:induction false} HopFigures(ttl: nat, probes: seq<Probe>, target: string)
    ensures Figures(HopOf(ttl, probes, target), ttl, probes)
  {
    if |probes| > 0 {
      var before, p := probes[..|probes| - 1], probes[|probes| - 1];
      HopFigures(ttl, before, target);
      assert before + [p] == probes;
      RecordedFigures(HopOf(ttl, before, target), ttl, before, p, target);
    }
  }

  lemma RecordedFigures(h: Hop, ttl: nat, probes: seq<Probe>, p: Probe, target: string)
    requires Figures(h, ttl, probes)
    ensures Figures(Recorded(h, p, target), ttl, probes + [p])
  {
    RecordedCounts(h, ttl, probes, p, target);
    RecordedLoss(h, p, target);
    assert (probes + [p])[..|probes|] == probes;
    RecordedTimes(h, Rtts(probes), p, target);
  }

  lemma RecordedTimes(h: Hop, rtts: seq<real>, p: Probe, target: string)
    requires Extremes(h, rtts) && Mean(h, rtts)
    ensures var rtts' := rtts + if Answered(p) then [p.rtt] else [];
            Extremes(Recorded(h, p, target), rtts') && Mean(Recorded(h, p, target), rtts')
  {
    if Answered(p) {
      RecordedExtremes(h, rtts, p, target);
      RecordedMean(h, rtts, p, target);
    } else {
      assert rtts + [] == rtts;
    }
  }

  lemma RecordedCounts(h: Hop, ttl: nat, probes: seq<Probe>, p: Probe, target: string)
    requires Counts(h, ttl, probes)
    ensures Counts(Recorded(h, p, target), ttl, probes + [p])
  {
    assert (probes + [p])[..|probes|] == probes;
    assert (probes + [p])[|probes|] == p;
    assert forall i :: 0 <= i < |probes| ==> (probes + [p])[i] == probes[i];
  }

  lemma RecordedLoss(h: Hop, p: Probe, target: string)
    ensures Loss(Recorded(h, p, target))
  {
    RatioTimes((if Answered(p) then h.timeouts else h.timeouts + 1) as real, (h.sent + 1) as real);
  }

  lemma RecordedExtremes(h: Hop, rtts: seq<real>, p: Probe, target: string)
    requires Extremes(h, rtts) && Answered(p)
    ensures Extremes(Recorded(h, p, target), rtts + [p.rtt])
  {
    LeastMore(h.minRtt, rtts, p.rtt);
    LeastMore(h.maxRtt, rtts, p.rtt);
    assert |rtts| == 0 ==> rtts + [p.rtt] == [p.rtt];
  }

  lemma RecordedMean(h: Hop, rtts: seq<real>, p: Probe, target: string)
    requires Mean(h, rtts) && h.replies == |rtts| && Answered(p)
    ensures Mean(Recorded(h, p, target), rtts + [p.rtt])
  {
    assert (rtts + [p.rtt])[..|rtts|] == rtts;
    if |rtts| > 0 {
      MeanBounds(h.avgRtt, |rtts|, p.rtt, h.minRtt, h.maxRtt);
    }
  }

  lemma LeastMore(x: real, s: seq<real>, y: real)
    ensures Least(x, s) ==> Least(if y < x then y else x, s + [y])
    ensures Greatest(x, s) ==> Greatest(if y > x then y else x, s + [y])
  {
    assert (s + [y])[|s|] == y && forall i :: 0 <= i < |s| ==> (s + [y])[i] == s[i];
  }

  // ---- Runs ----

  /** What the network answers: for each attempt of a run, what a UDP and what an ICMP probe
      would return; and whether UDP probing is available at all. */
  datatype Net = Net(udp: nat -> Probe, icmp: nat -> Probe, startUdp: bool)

  /** UDP is used until its first error. */
  predicate UdpLives(net: Net, k: nat) {
    if k == 0 then net.startUdp else UdpLives(net, k - 1) && net.udp(k - 1).code >= 0
  }

  /** An attempt's outcome; a UDP error is retried with ICMP at once. */
  function Attempt(net: Net, k: nat): Probe {
    if UdpLives(net, k) && net.udp(k).code >= 0 then net.udp(k) else net.icmp(k)
  }

  function Attempts(net: Net, from: nat, n: nat): (s: seq<Probe>)
    ensures |s| == n && forall i :: 0 <= i < n ==> s[i] == Attempt(net, from + i)
  {
    seq(n, i requires 0 <= i => Attempt(net, from + i))
  }

  const TTL_DEFAULT: nat := 30

  function Distance(a: int, b: int): nat {
    if a < b then b - a else a - b
  }

  /** The number from 1 to `limit` that comes nearest to what was asked for; the default when
      nothing positive was asked for. */
  ghost predicate Nearest(wanted: int, limit: nat, default: nat, got: nat) {
    && 1 <= got <= limit
    && (wanted <= 0 ==> got == default)
    && (wanted > 0 ==> forall k :: 1 <= k <= limit ==> Distance(wanted, got) <= Distance(wanted, k))
  }

  /** There is only one such number, and it is what was asked for if that is allowed. */
  lemma NearestIsOne(wanted: int, limit: nat, default: nat, got: nat, other: nat)
    requires Nearest(wanted, limit, default, got) && Nearest(wanted, limit, default, other)
    ensures got == other
    ensures 1 <= wanted <= limit ==> got == wanted
  {
    if wanted > 0 {
      assert Distance(wanted, got) == Distance(wanted, other);
      var most := Min(wanted, limit);
      assert Distance(wanted, got) <= Distance(wanted, most);
    }
  }

  predicate Reaches(probes: seq<Probe>) {
    exists i :: 0 <= i < |probes| && AtTarget(probes[i])
  }

  /** The time of the last probe that reached the target, or what it was before. */
  function TargetRtt(probes: seq<Probe>, before: real): real {
    if |probes| == 0 then before
    else
      var p := probes[|probes| - 1];
      if AtTarget(p) then p.rtt else TargetRtt(probes[..|probes| - 1], before)
  }

  datatype Trace = Trace(hops: seq<Hop>, maxTtl: nat, perHop: nat, reached: bool, targetRtt: real, udp: bool)

  /** The attempts of hop i. */
  function HopAttempts(net: Net, perHop: nat, i: nat): seq<Probe> {
    Attempts(net, i * perHop, perHop)
  }

  ghost predicate HopsMatch(hops: seq<Hop>, net: Net, perHop: nat, target: string) {
    forall i :: 0 <= i < |hops| ==> hops[i] == HopOf(i + 1, HopAttempts(net, perHop, i), target)
  }

  /** None of the first n hops reaches the target. */
  ghost predicate NoneReaches(net: Net, perHop: nat, n: nat) {
    forall i :: 0 <= i < n ==> !Reaches(HopAttempts(net, perHop, i))
  }

  /** The hops so far, none of which reached the target. */
  ghost predicate OnTheWay(tr: Trace, net: Net, target: string) {
    && |tr.hops| <= tr.maxTtl && HopsMatch(tr.hops, net, tr.perHop, target)
    && NoneReaches(net, tr.perHop, |tr.hops|)
    && tr.udp == UdpLives(net, |tr.hops| * tr.perHop)
    && !tr.reached && tr.targetRtt == 0.0
  }

  /** A finished run: the hops on the way, and one more that ended it. */
  ghost predicate Finished(tr: Trace, net: Net, target: string) {
    && 1 <= |tr.hops| <= tr.maxTtl && HopsMatch(tr.hops, net, tr.perHop, target)
    && NoneReaches(net, tr.perHop, |tr.hops| - 1)
    && tr.reached == Reaches(HopAttempts(net, tr.perHop, |tr.hops| - 1))
    && (!tr.reached ==> |tr.hops| == tr.maxTtl)
    && tr.targetRtt == TargetRtt(HopAttempts(net, tr.perHop, |tr.hops| - 1), 0.0)
    && tr.udp == UdpLives(net, |tr.hops| * tr.perHop)
  }

  /** For any probe outcomes: hop i has TTL i + 1 and correct figures over exactly the probes per
      hop; the run reached the target exactly when some hop did, that hop is the last and no other
      did; and a run that did not reach it used every TTL. */
  lemma FinishedRuns(tr: Trace, net: Net, target: string, i: nat)
    requires Finished(tr, net, target) && tr.maxTtl <= 32 && i < |tr.hops|
    ensures |tr.hops| <= 32 && Figures(tr.hops[i], i + 1, HopAttempts(net, tr.perHop, i))
    ensures tr.hops[i].ttl == i + 1 && tr.hops[i].sent == tr.perHop
    ensures tr.hops[i].reached <==> tr.reached && i == |tr.hops| - 1
    ensures tr.reached || |tr.hops| == tr.maxTtl
  {
    HopFigures(i + 1, HopAttempts(net, tr.perHop, i), target);
  }

  // ---- What the attempts were, and what a hop shows of them ----

  /** Attempt k is a UDP probe if and only if UDP was there at the start and no attempt up to k, k
      included, met a UDP error; else it is an ICMP probe. */
  lemma {:induction false} AttemptIff(net: Net, k: nat)
    ensures UdpLives(net, k) <==> net.startUdp && forall j :: 0 <= j < k ==> net.udp(j).code >= 0
    ensures Attempt(net, k) == if net.startUdp && forall j :: 0 <= j <= k ==> net.udp(j).code >= 0 then net.udp(k) else net.icmp(k)
  {
    if k > 0 {
      AttemptIff(net, k - 1);
    }
  }

  /** Probe n is the last that reached the target. */
  ghost predicate LastAtTarget(probes: seq<Probe>, n: nat) {
    n < |probes| && probes[n].code == 2 && forall j :: n < j < |probes| ==> probes[j].code != 2
  }

  lemma {:induction false} TargetRttIsLast(probes: seq<Probe>, before: real, n: nat)
    requires LastAtTarget(probes, n)
    ensures TargetRtt(probes, before) == probes[n].rtt
  {
    if n < |probes| - 1 {
      TargetRttIsLast(probes[..|probes| - 1], before, n);
    }
  }

  /** The address that a probe gives its hop: the replying one, or the target's if the target sent
      none; none if it was not answered. */
  function Names(p: Probe, target: string): string {
    if p.code <= 0 then "" else if p.addr != "" then p.addr else if p.code == 2 then target else ""
  }

  /** Probe n is the last that names an address. */
  ghost predicate LastNamed(probes: seq<Probe>, target: string, n: nat) {
    n < |probes| && Names(probes[n], target) != "" && forall j :: n < j < |probes| ==> Names(probes[j], target) == ""
  }

  /** A hop shows the address that the last of its probes to name one does, or none. */
  lemma {:induction false} HopAddress(ttl: nat, probes: seq<Probe>, target: string, n: nat)
    ensures LastNamed(probes, target, n) ==> HopOf(ttl, probes, target).addr == Names(probes[n], target)
    ensures (forall j :: 0 <= j < |probes| ==> Names(probes[j], target) == "") ==> HopOf(ttl, probes, target).addr == ""
  {
    if |probes| > 0 {
      var before, last := probes[..|probes| - 1], probes[|probes| - 1];
      HopAddress(ttl, before, target, n);
      assert forall j :: 0 <= j < |before| ==> before[j] == probes[j];
      assert Names(last, target) != "" ==> HopOf(ttl, probes, target).addr == Names(last, target);
    }
  }

  method HopRecord(hops: array<Hop>, at: nat, p: Probe, target: string)
    requires at < hops.Length
    modifies hops
    ensures hops[at] == Recorded(old(hops[at]), p, target)
    ensures forall j :: 0 <= j < hops.Length && j != at ==> hops[j] == old(hops[j])
  {
    var h := hops[at];
    h := h.(sent := h.sent + 1);
    if p.code <= 0 {
      h := h.(timeouts := h.timeouts + 1);
      h := h.(loss := h.timeouts as real / h.sent as real);
      hops[at] := h;
      return;
    }
    h := h.(replies := h.replies + 1);
    var addr := if p.code == 2 && p.addr == "" then target else p.addr;
    if addr != "" {
      h := h.(addr := addr);
    }
    h := h.(lastRtt := p.rtt);
    if h.replies == 1 {
      h := h.(minRtt := p.rtt, maxRtt := p.rtt, avgRtt := p.rtt);
    } else {
      if p.rtt < h.minRtt {
        h := h.(minRtt := p.rtt);
      }
      if p.rtt > h.maxRtt {
        h := h.(maxRtt := p.rtt);
      }
      h := h.(avgRtt := MeanWith(h.avgRtt, h.replies - 1, p.rtt));
    }
    if p.code == 2 {
      h := h.(reached := true);
    }
    h := h.(loss := h.timeouts as real / h.sent as real);
    hops[at] := h;
  }

  /** All probes of one TTL. */
  method ProbeHop(net: Net, hops: array<Hop>, at: nat, perHop: nat, target: string, first: nat, udp: bool, rtt: real)
    returns (udp': bool, reached: bool, rtt': real)
    requires at < hops.Length && udp == UdpLives(net, first)
    modifies hops
    ensures hops[at] == HopOf(at + 1, Attempts(net, first, perHop), target)
    ensures forall j :: 0 <= j < hops.Length && j != at ==> hops[j] == old(hops[j])
    ensures udp' == UdpLives(net, first + perHop)
    ensures reached == Reaches(Attempts(net, first, perHop))
    ensures rtt' == TargetRtt(Attempts(net, first, perHop), rtt)
  {
    hops[at] := InitialHop(at + 1);
    udp', reached, rtt' := udp, false, rtt;
    var p := 0;
    ghost var probes: seq<Probe> := [];
    while p < perHop
      invariant 0 <= p <= perHop && probes == Attempts(net, first, p)
      invariant hops[at] == HopOf(at + 1, probes, target)
      invariant forall j :: 0 <= j < hops.Length && j != at ==> hops[j] == old(hops[j])
      invariant udp' == UdpLives(net, first + p)
      invariant reached == Reaches(probes) && rtt' == TargetRtt(probes, rtt)
    {
      var pr: Probe;
      pr, udp' := SendProbe(net, first + p, udp');
      OneAttempt(net, first, p);
      reached, rtt' := CountProbe(hops, at, pr, target, probes, reached, rtt', rtt);
      probes := probes + [pr];
      p := p + 1;
    }
  }

  /** Records one more probe of a hop, and whether and when it reached the target. */
  method CountProbe(hops: array<Hop>, at: nat, pr: Probe, target: string, ghost probes: seq<Probe>,
                    reached: bool, rtt: real, ghost before: real)
    returns (reached': bool, rtt': real)
    requires at < hops.Length && hops[at] == HopOf(at + 1, probes, target)
    requires reached == Reaches(probes) && rtt == TargetRtt(probes, before)
    modifies hops
    ensures hops[at] == HopOf(at + 1, probes + [pr], target)
    ensures forall j :: 0 <= j < hops.Length && j != at ==> hops[j] == old(hops[j])
    ensures reached' == Reaches(probes + [pr]) && rtt' == TargetRtt(probes + [pr], before)
  {
    OneMoreProbe(probes, pr, at + 1, target, before);
    HopRecord(hops, at, pr, target);
    reached', rtt' := reached, rtt;
    if pr.code == 2 {
      reached', rtt' := true, pr.rtt;
    }
  }

  lemma OneMoreProbe(probes: seq<Probe>, pr: Probe, ttl: nat, target: string, before: real)
    ensures var s := probes + [pr];
            && HopOf(ttl, s, target) == Recorded(HopOf(ttl, probes, target), pr, target)
            && (Reaches(s) <==> Reaches(probes) || AtTarget(pr))
            && TargetRtt(s, before) == if AtTarget(pr) then pr.rtt else TargetRtt(probes, before)
  {
    var s := probes + [pr];
    assert s[..|probes|] == probes;
    assert forall i :: 0 <= i < |probes| ==> s[i] == probes[i];
    assert s[|probes|] == pr;
  }

  /** Probes with UDP while it lives; its first error is made good with ICMP at once. */
  method SendProbe(net: Net, k: nat, udp: bool) returns (pr: Probe, udp': bool)
    requires udp == UdpLives(net, k)
    ensures pr == Attempt(net, k) && udp' == UdpLives(net, k + 1)
  {
    udp' := udp;
    if udp' {
      pr := net.udp(k);
      if pr.code < 0 {
        udp' := false;
        pr := net.icmp(k);
      }
    } else {
      pr := net.icmp(k);
    }
  }

  lemma OneAttempt(net: Net, first: nat, p: nat)
    ensures Attempts(net, first, p + 1) == Attempts(net, first, p) + [Attempt(net, first + p)]
  {
  }

  method ClampArguments(wantedTtl: int, wantedProbes: int) returns (maxTtl: nat, perHop: nat)
    ensures Nearest(wantedTtl, 32, 30, maxTtl) && Nearest(wantedProbes, 16, 1, perHop)
  {
    var ttl, probes := wantedTtl, wantedProbes;
    if ttl <= 0 {
      ttl := TTL_DEFAULT;
    }
    if ttl > HOP_MAX {
      ttl := HOP_MAX;
    }
    if probes <= 0 {
      probes := 1;
    }
    if probes > PROBES_MAX {
      probes := PROBES_MAX;
    }
    return ttl, probes;
  }

  /** A run: TTLs from 1 up until one reaches the target or the last is done. */
  method Run(wantedTtl: int, wantedProbes: int, net: Net, target: string) returns (tr: Trace)
    ensures Nearest(wantedTtl, 32, 30, tr.maxTtl) && Nearest(wantedProbes, 16, 1, tr.perHop)
    ensures Finished(tr, net, target)
  {
    var maxTtl, perHop := ClampArguments(wantedTtl, wantedProbes);
    var hops := new Hop[HOP_MAX](_ => InitialHop(0));
    var count, udp := 0, net.startUdp;
    var reached, rtt := false, 0.0;
    while count < maxTtl && !reached
      invariant 0 <= count <= maxTtl
      invariant !reached ==> OnTheWay(Trace(hops[..count], maxTtl, perHop, false, rtt, udp), net, target)
      invariant reached ==> Finished(Trace(hops[..count], maxTtl, perHop, true, rtt, udp), net, target)
      decreases maxTtl - count, !reached
    {
      ghost var before := Trace(hops[..count], maxTtl, perHop, false, rtt, udp);
      udp, reached, rtt := NextTtl(before, net, hops, count, target, udp, rtt, perHop);
      count := count + 1;
    }
    tr := Trace(hops[..count], maxTtl, perHop, reached, rtt, udp);
    if !reached {
      WayEnds(tr, net, target);
    }
  }

  /** One more TTL of a run on its way. */
  method NextTtl(ghost before: Trace, net: Net, hops: array<Hop>, count: nat, target: string, udp: bool, rtt: real, perHop: nat)
    returns (udp': bool, reached: bool, rtt': real)
    requires count < hops.Length && count < before.maxTtl && before == Trace(hops[..count], before.maxTtl, perHop, false, rtt, udp)
    requires OnTheWay(before, net, target)
    modifies hops
    ensures var tr := Trace(hops[..count + 1], before.maxTtl, perHop, reached, rtt', udp');
            if reached then Finished(tr, net, target) else OnTheWay(tr, net, target)
  {
    var first := count * perHop;
    AttemptsOfHop(net, count, perHop, first);
    udp', reached, rtt' := ProbeHop(net, hops, count, perHop, target, first, udp, rtt);
    assert hops[..count + 1] == before.hops + [hops[count]];
    NextHop(before, hops[count], Trace(hops[..count + 1], before.maxTtl, perHop, reached, rtt', udp'), net, target);
  }

  lemma AttemptsOfHop(net: Net, count: nat, n: nat, first: nat)
    requires first == count * n
    ensures HopAttempts(net, n, count) == Attempts(net, first, n) && (count + 1) * n == first + n
  {
  }

  lemma {:induction false} NoTargetNoTime(probes: seq<Probe>, before: real)
    requires !Reaches(probes)
    ensures TargetRtt(probes, before) == before
  {
    if |probes| > 0 {
      assert !AtTarget(probes[|probes| - 1]);
      assert forall i :: 0 <= i < |probes| - 1 ==> probes[..|probes| - 1][i] == probes[i];
      NoTargetNoTime(probes[..|probes| - 1], before);
    }
  }

  lemma WayEnds(tr: Trace, net: Net, target: string)
    requires OnTheWay(tr, net, target) && 1 <= |tr.hops| == tr.maxTtl
    ensures Finished(tr, net, target)
  {
    NoTargetNoTime(HopAttempts(net, tr.perHop, |tr.hops| - 1), 0.0);
  }

  lemma OneMoreMatch(hops: seq<Hop>, h: Hop, net: Net, perHop: nat, target: string)
    requires HopsMatch(hops, net, perHop, target)
    requires h == HopOf(|hops| + 1, HopAttempts(net, perHop, |hops|), target)
    ensures HopsMatch(hops + [h], net, perHop, target)
  {
  }

  /** One more hop leaves the run on its way, or finishes it. */
  lemma NextHop(tr: Trace, h: Hop, tr': Trace, net: Net, target: string)
    requires OnTheWay(tr, net, target) && |tr.hops| < tr.maxTtl
    requires tr'.hops == tr.hops + [h] && tr'.maxTtl == tr.maxTtl && tr'.perHop == tr.perHop
    requires var n := |tr.hops|;
             var probes := HopAttempts(net, tr.perHop, n);
             && h == HopOf(n + 1, probes, target) && tr'.reached == Reaches(probes)
             && tr'.targetRtt == TargetRtt(probes, 0.0) && tr'.udp == UdpLives(net, (n + 1) * tr.perHop)
    ensures if tr'.reached then Finished(tr', net, target) else OnTheWay(tr', net, target)
  {
    var n := |tr.hops|;
    OneMoreMatch(tr.hops, h, net, tr.perHop, target);
    if !tr'.reached {
      NoTargetNoTime(HopAttempts(net, tr.perHop, n), 0.0);
    }
  }
}
