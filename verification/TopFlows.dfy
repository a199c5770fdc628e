/** The periodic samples of the busiest flows: a partial selection sort over the live slots. */
module TopFlows {
  import opened Bytes
  import opened FlowTable

  const TOP_DEFAULT: nat := 32

  function CombinedRate(e: Entry): real {
    e.upRate + e.downRate
  }

  predicate Idle(e: Entry) {
    CombinedRate(e) < 1.0 && e.upDelta + e.downDelta == 0
  }

  predicate Live(e: Entry) {
    e.used && e.alive
  }

  // What the rankings and samples are stated with.

  /** Up and down together. */
  ghost function RateSum(e: Entry): real {
    e.upRate + e.downRate
  }

  /** At least one bit per second, or bytes since the last counters. */
  ghost predicate Active(e: Entry) {
    e.upRate + e.downRate >= 1.0 || e.upDelta > 0 || e.downDelta > 0
  }

  ghost predicate Tracked(e: Entry) {
    e.used && e.alive
  }

  ghost predicate Within(order: seq<nat>, n: nat) {
    forall p :: 0 <= p < |order| ==> order[p] < n
  }

  ghost predicate Ascending(s: seq<nat>) {
    forall a, b :: 0 <= a < b < |s| ==> s[a] < s[b]
  }

  /** The slots that hold a live flow, in table order. */
  function LiveSlots(slots: seq<Entry>): seq<nat> {
    if |slots| == 0 then []
    else
      var n := |slots| - 1;
      LiveSlots(slots[..n]) + if Live(slots[n]) then [n] else []
  }

  lemma {:induction false} AboutLiveSlots(slots: seq<Entry>)
    ensures var s := LiveSlots(slots);
            && Within(s, |slots|) && Ascending(s) && |s| <= |slots|
            && forall x: nat :: x in s <==> x < |slots| && Tracked(slots[x])
  {
    if |slots| > 0 {
      AboutLiveSlots(slots[..|slots| - 1]);
    }
  }

  lemma LiveSlotsMore(slots: seq<Entry>, i: nat)
    requires i < |slots|
    ensures LiveSlots(slots[..i + 1]) == LiveSlots(slots[..i]) + if Live(slots[i]) then [i] else []
  {
    assert slots[..i + 1][..i] == slots[..i];
  }

  /** The non-idle ones among some slots, in the same order. */
  function Busy(slots: seq<Entry>, order: seq<nat>): seq<nat> {
    if |order| == 0 then []
    else
      var last := order[|order| - 1];
      Busy(slots, order[..|order| - 1]) + if last < |slots| && !Idle(slots[last]) then [last] else []
  }

  lemma {:induction false} AboutBusy(slots: seq<Entry>, order: seq<nat>, x: nat)
    requires Within(order, |slots|)
    ensures x in Busy(slots, order) <==> x in order && Active(slots[x])
  {
    if |order| > 0 {
      AboutBusy(slots, order[..|order| - 1], x);
      assert order == order[..|order| - 1] + [order[|order| - 1]];
    }
  }

  /** The first k are in descending order of combined rate and not exceeded by any that follow. */
  ghost predicate Leads(slots: seq<Entry>, order: seq<nat>, k: nat)
    requires Within(order, |slots|)
  {
    forall a, b :: 0 <= a < k && a < b < |order| ==> RateSum(slots[order[a]]) >= RateSum(slots[order[b]])
  }

  /** A ranking of the live slots by their combined rates, as far as the first k. */
  ghost predicate Ranks(slots: seq<Entry>, order: seq<nat>, k: nat) {
    && multiset(order) == multiset(LiveSlots(slots))
    && Within(order, |slots|) && k <= |order|
    && Leads(slots, order, k)
  }

  lemma {:induction false} OnceEach(s: seq<nat>, x: nat)
    requires Ascending(s)
    ensures multiset(s)[x] <= 1
  {
    if |s| > 0 {
      var n := |s| - 1;
      OnceEach(s[..n], x);
      assert s == s[..n] + [s[n]];
      if x == s[n] {
        assert x !in s[..n];
      }
    }
  }

  lemma TwiceCounts(s: seq<nat>, a: nat, b: nat)
    requires a < b < |s| && s[a] == s[b]
    ensures multiset(s)[s[a]] >= 2
  {
    assert s == s[..b] + s[b..];
    assert s[..b][a] == s[a] && s[b..][0] == s[a];
    assert multiset(s[..b])[s[a]] >= 1 && multiset(s[b..])[s[a]] >= 1;
  }

  lemma SameElements(s: seq<nat>, t: seq<nat>, x: nat)
    requires multiset(s) == multiset(t)
    ensures |s| == |t| && (x in s <==> x in t)
  {
    assert |s| == |multiset(s)| && |t| == |multiset(t)|;
    assert x in s <==> x in multiset(s);
    assert x in t <==> x in multiset(t);
  }

  /** In a ranking every live slot occurs exactly once: so the first k are k different live slots,
      and a live slot outside them is no busier than any of them. */
  lemma RanksBest(slots: seq<Entry>, order: seq<nat>, k: nat, x: nat)
    requires Ranks(slots, order, k)
    ensures |order| == |LiveSlots(slots)|
    ensures forall a, b :: 0 <= a < b < |order| ==> order[a] != order[b]
    ensures x in order <==> x < |slots| && Tracked(slots[x])
    ensures x in order && x !in order[..k] ==>
              forall a :: 0 <= a < k ==> RateSum(slots[order[a]]) >= RateSum(slots[x])
  {
    SameElements(order, LiveSlots(slots), x);
    AboutLiveSlots(slots);
    forall a, b | 0 <= a < b < |order|
      ensures order[a] != order[b]
    {
      OnceEach(LiveSlots(slots), order[a]);
      if order[a] == order[b] {
        TwiceCounts(order, a, b);
      }
    }
    assert forall a :: 0 <= a < k ==> order[a] in order[..k];
  }

  method Swap(a: array<nat>, i: nat, j: nat)
    requires i < a.Length && j < a.Length
    modifies a
    ensures a[..] == old(a[..])[i := old(a[j])][j := old(a[i])]
  {
    a[i], a[j] := a[j], a[i];
  }

  lemma SwapKeepsMultiset(s: seq<nat>, i: nat, j: nat)
    requires i < |s| && j < |s|
    ensures multiset(s[i := s[j]][j := s[i]]) == multiset(s)
  {
  }

  /** The position of the first greatest rate among order[i..n]. */
  method Busiest(slots: seq<Entry>, a: array<nat>, i: nat, n: nat) returns (best: nat)
    requires i < n <= a.Length
    requires forall p :: 0 <= p < n ==> a[p] < |slots|
    ensures i <= best < n
    ensures forall p :: i <= p < n ==> RateSum(slots[a[p]]) <= RateSum(slots[a[best]])
    ensures forall p :: i <= p < best ==> RateSum(slots[a[p]]) < RateSum(slots[a[best]])
  {
    best := i;
    var bestRate := CombinedRate(slots[a[i]]);
    var j := i + 1;
    while j < n
      invariant i + 1 <= j <= n && i <= best < j
      invariant bestRate == CombinedRate(slots[a[best]])
      invariant forall p :: i <= p < j ==> CombinedRate(slots[a[p]]) <= bestRate
      invariant forall p :: i <= p < best ==> CombinedRate(slots[a[p]]) < bestRate
    {
      var r := CombinedRate(slots[a[j]]);
      if r > bestRate {
        best, bestRate := j, r;
      }
      j := j + 1;
    }
  }

  method CollectLive(slots: seq<Entry>) returns (indices: array<nat>, count: nat)
    ensures fresh(indices) && indices.Length == |slots| && count <= |slots|
    ensures indices[..count] == LiveSlots(slots)
  {
    indices := new nat[|slots|](_ => 0);
    count := 0;
    var i := 0;
    while i < |slots|
      invariant 0 <= i <= |slots| && count <= i
      invariant indices[..count] == LiveSlots(slots[..i])
    {
      LiveSlotsMore(slots, i);
      if Live(slots[i]) {
        indices[count] := i;
        count := count + 1;
      }
      i := i + 1;
    }
    assert slots[..|slots|] == slots;
  }

  /** The partial selection sort of the first `count` indices. */
  method SelectTop(slots: seq<Entry>, indices: array<nat>, count: nat, top: nat)
    requires count <= indices.Length && indices[..count] == LiveSlots(slots)
    modifies indices
    ensures Ranks(slots, indices[..count], Min(top, count))
  {
    AboutLiveSlots(slots);
    var i := 0;
    while i < count && i < top
      invariant 0 <= i <= Min(top, count)
      invariant Ranks(slots, indices[..count], i)
    {
      SelectOne(slots, indices, i, count);
      i := i + 1;
    }
  }

  /** Swaps the busiest of what is left into place i. */
  method SelectOne(slots: seq<Entry>, indices: array<nat>, i: nat, count: nat)
    requires i < count <= indices.Length && Ranks(slots, indices[..count], i)
    modifies indices
    ensures Ranks(slots, indices[..count], i + 1)
  {
    ghost var was := indices[..count];
    assert forall p :: 0 <= p < count ==> indices[p] == was[p];
    var best := Busiest(slots, indices, i, count);
    SwapKeepsMultiset(was, i, best);
    SwapLeads(slots, was, i, best);
    Swap(indices, i, best);
    assert indices[..count] == was[i := was[best]][best := was[i]];
  }

  lemma SwapLeads(slots: seq<Entry>, was: seq<nat>, i: nat, best: nat)
    requires Within(was, |slots|) && Leads(slots, was, i) && i <= best < |was|
    requires forall p :: i <= p < |was| ==> RateSum(slots[was[p]]) <= RateSum(slots[was[best]])
    ensures var now := was[i := was[best]][best := was[i]];
            Within(now, |slots|) && Leads(slots, now, i + 1)
  {
  }

  /** Some slots are what is left of a ranking's first `top` without the idle ones. */
  ghost predicate Sampled(slots: seq<Entry>, top: nat, offered: seq<nat>) {
    exists order: seq<nat> :: Ranks(slots, order, Min(top, |order|)) && offered == Busy(slots, order[..Min(top, |order|)])
  }

  ghost predicate Descending(slots: seq<Entry>, order: seq<nat>)
    requires Within(order, |slots|)
  {
    forall a, b :: 0 <= a < b < |order| ==> RateSum(slots[order[a]]) >= RateSum(slots[order[b]])
  }

  ghost predicate Distinct(order: seq<nat>) {
    forall a, b :: 0 <= a < b < |order| ==> order[a] != order[b]
  }

  lemma OneMoreLast(slots: seq<Entry>, order: seq<nat>, last: nat)
    requires Within(order, |slots|) && Descending(slots, order) && Distinct(order) && last < |slots|
    requires forall a :: 0 <= a < |order| ==> order[a] != last && RateSum(slots[order[a]]) >= RateSum(slots[last])
    ensures Within(order + [last], |slots|) && Descending(slots, order + [last]) && Distinct(order + [last])
  {
  }

  /** Leaving out the idle ones keeps the others in order. */
  lemma {:induction false} BusyKeepsOrder(slots: seq<Entry>, order: seq<nat>)
    requires Within(order, |slots|) && Descending(slots, order) && Distinct(order)
    ensures var busy := Busy(slots, order);
            && |busy| <= |order| && Within(busy, |slots|) && Descending(slots, busy) && Distinct(busy)
            && forall a :: 0 <= a < |busy| ==> exists b :: 0 <= b < |order| && busy[a] == order[b]
  {
    if |order| > 0 {
      var before, last := order[..|order| - 1], order[|order| - 1];
      BusyKeepsOrder(slots, before);
      var busy := Busy(slots, before);
      forall a | 0 <= a < |busy|
        ensures busy[a] != last && RateSum(slots[busy[a]]) >= RateSum(slots[last])
        ensures exists b :: 0 <= b < |order| && busy[a] == order[b]
      {
        var b :| 0 <= b < |before| && busy[a] == before[b];
        assert busy[a] == order[b];
      }
      if !Idle(slots[last]) {
        OneMoreLast(slots, busy, last);
        assert (busy + [last])[|busy|] == order[|order| - 1];
      }
    }
  }

  /** The sampled slots are at most `top` different ones in descending order of combined rate. */
  lemma SampledInOrder(slots: seq<Entry>, top: nat, offered: seq<nat>)
    requires Sampled(slots, top, offered)
    ensures |offered| <= top && Distinct(offered) && Within(offered, |slots|) && Descending(slots, offered)
  {
    var order: seq<nat> :| Ranks(slots, order, Min(top, |order|)) && offered == Busy(slots, order[..Min(top, |order|)]);
    LeadersInOrder(slots, order, Min(top, |order|));
    BusyKeepsOrder(slots, order[..Min(top, |order|)]);
  }

  lemma LeadersInOrder(slots: seq<Entry>, order: seq<nat>, k: nat)
    requires Ranks(slots, order, k)
    ensures Within(order[..k], |slots|) && Descending(slots, order[..k]) && Distinct(order[..k])
  {
    RanksBest(slots, order, k, 0);
    forall a, b | 0 <= a < b < k
      ensures order[..k][a] != order[..k][b] && RateSum(slots[order[..k][a]]) >= RateSum(slots[order[..k][b]])
    {
      assert order[a] == order[..k][a] && order[b] == order[..k][b];
    }
  }

  /** They are live and not idle; and a live slot that is not idle and not sampled is no busier
      than any of them. */
  lemma SampledAreBusiest(slots: seq<Entry>, top: nat, offered: seq<nat>, x: nat)
    requires Sampled(slots, top, offered) && x < |slots|
    ensures x in offered ==> Tracked(slots[x]) && Active(slots[x])
    ensures Tracked(slots[x]) && Active(slots[x]) && x !in offered ==>
              forall y :: y in offered ==> y < |slots| && RateSum(slots[y]) >= RateSum(slots[x])
  {
    var order: seq<nat> :| Ranks(slots, order, Min(top, |order|)) && offered == Busy(slots, order[..Min(top, |order|)]);
    AboutLeaders(slots, order, Min(top, |order|), x);
    forall y | y in offered && Tracked(slots[x]) && Active(slots[x]) && x !in offered
      ensures y < |slots| && RateSum(slots[y]) >= RateSum(slots[x])
    {
      LeaderIsBusier(slots, order, Min(top, |order|), y, x);
    }
  }

  lemma AboutLeaders(slots: seq<Entry>, order: seq<nat>, k: nat, x: nat)
    requires Ranks(slots, order, k) && x < |slots|
    ensures x in Busy(slots, order[..k]) <==> x in order[..k] && Active(slots[x])
    ensures x in order[..k] ==> Tracked(slots[x])
  {
    RanksBest(slots, order, k, x);
    AboutBusy(slots, order[..k], x);
    assert x in order[..k] ==> x in order;
  }

  lemma LeaderIsBusier(slots: seq<Entry>, order: seq<nat>, k: nat, y: nat, x: nat)
    requires Ranks(slots, order, k) && y in Busy(slots, order[..k])
    requires x < |slots| && Tracked(slots[x]) && x !in order[..k]
    ensures y < |slots| && RateSum(slots[y]) >= RateSum(slots[x])
  {
    RanksBest(slots, order, k, x);
    AboutBusy(slots, order[..k], y);
    var a :| 0 <= a < k && order[..k][a] == y;
    assert order[a] == y;
  }

  lemma RankedIsSampled(slots: seq<Entry>, top: nat, order: seq<nat>)
    requires Ranks(slots, order, Min(top, |order|))
    ensures Sampled(slots, top, Busy(slots, order[..Min(top, |order|)]))
  {
  }

  /** Ranks the live slots and offers the non-idle ones among the first `topN` to the spool. */
  method SampleTop(slots: seq<Entry>, topN: nat) returns (offered: seq<nat>)
    ensures Sampled(slots, TopCount(topN), offered)
  {
    var top := if topN != 0 then topN else TOP_DEFAULT;
    var indices, count := CollectLive(slots);
    SelectTop(slots, indices, count, top);
    var ranked := indices[..count];
    offered := OfferBusy(slots, ranked[..Min(top, count)]);
    RankedIsSampled(slots, top, ranked);
  }

  method OfferBusy(slots: seq<Entry>, leading: seq<nat>) returns (offered: seq<nat>)
    requires Within(leading, |slots|)
    ensures offered == Busy(slots, leading)
  {
    offered := [];
    var i := 0;
    while i < |leading|
      invariant 0 <= i <= |leading|
      invariant offered == Busy(slots, leading[..i])
    {
      assert leading[..i + 1][..i] == leading[..i];
      if !Idle(slots[leading[i]]) {
        offered := offered + [leading[i]];
      }
      i := i + 1;
    }
    assert leading[..|leading|] == leading;
  }

  function TopCount(topN: nat): nat {
    if topN != 0 then topN else 32
  }
}
