/** The flow table refines a bounded map from flows to their latest counters. */
module FlowTheorems {
  import opened Wrappers
  import opened TcpParse
  import opened FlowTable

  // ---- The map that the slots stand for ----

  datatype Seen = Seen(c: Traffic, last: nat)

  ghost predicate DistinctFlows(slots: seq<Entry>) {
    forall i, j :: 0 <= i < j < |slots| && slots[i].used && slots[j].used ==> slots[i].key != slots[j].key
  }

  function Flows(slots: seq<Entry>): map<FlowKey, Seen> {
    if |slots| == 0 then map[]
    else With(Flows(slots[..|slots| - 1]), slots[|slots| - 1])
  }

  function With(m: map<FlowKey, Seen>, e: Entry): map<FlowKey, Seen> {
    if e.used then m[e.key := Seen(e.c, e.lastSeen)] else m
  }

  function Without(m: map<FlowKey, Seen>, e: Entry): map<FlowKey, Seen> {
    if e.used then m - {e.key} else m
  }

  lemma {:induction false} FlowAt(slots: seq<Entry>, i: nat)
    requires DistinctFlows(slots) && i < |slots| && slots[i].used
    ensures slots[i].key in Flows(slots) && Flows(slots)[slots[i].key] == Seen(slots[i].c, slots[i].lastSeen)
  {
    if i < |slots| - 1 {
      FlowAt(slots[..|slots| - 1], i);
    }
  }

  lemma {:induction false} SlotOf(slots: seq<Entry>, k: FlowKey) returns (i: nat)
    requires k in Flows(slots)
    ensures i < |slots| && slots[i].used && slots[i].key == k
  {
    var n := |slots| - 1;
    if slots[n].used && slots[n].key == k {
      i := n;
    } else {
      i := SlotOf(slots[..n], k);
    }
  }

  ghost predicate Holds(slots: seq<Entry>, k: FlowKey) {
    exists i :: 0 <= i < |slots| && slots[i].used && slots[i].key == k
  }

  lemma HoldsIff(slots: seq<Entry>, k: FlowKey)
    requires DistinctFlows(slots)
    ensures k in Flows(slots) <==> Holds(slots, k)
  {
    if k in Flows(slots) {
      var i := SlotOf(slots, k);
    }
    if Holds(slots, k) {
      var i :| 0 <= i < |slots| && slots[i].used && slots[i].key == k;
      FlowAt(slots, i);
    }
  }

  lemma {:induction false} FlowsUpdate(slots: seq<Entry>, i: nat, e: Entry)
    requires i < |slots| && DistinctFlows(slots) && DistinctFlows(slots[i := e])
    ensures Flows(slots[i := e]) == With(Without(Flows(slots), slots[i]), e)
  {
    var n := |slots| - 1;
    var before := slots[..n];
    if i < n {
      assert slots[i := e][..n] == before[i := e];
      var after := before[i := e];
      forall j, k | 0 <= j < k < n && after[j].used && after[k].used
        ensures after[j].key != after[k].key
      {
        assert slots[i := e][j] == after[j] && slots[i := e][k] == after[k];
      }
      FlowsUpdate(before, i, e);
      assert slots[i := e][n] == slots[n] && slots[i := e][i] == e;
    } else {
      assert slots[i := e][..n] == before;
      if slots[n].used {
        HoldsIff(before, slots[n].key);
      }
    }
  }

  lemma {:induction false} SizeIsUsed(slots: seq<Entry>)
    requires DistinctFlows(slots)
    ensures |Flows(slots)| == CountUsed(slots) <= |slots|
    ensures CountUsed(slots) == |slots| <==> forall i :: 0 <= i < |slots| ==> slots[i].used
  {
    if |slots| > 0 {
      var n := |slots| - 1;
      SizeIsUsed(slots[..n]);
      HoldsIff(slots[..n], slots[n].key);
      assert (forall i :: 0 <= i < |slots| ==> slots[i].used)
        <==> (slots[n].used && forall i :: 0 <= i < n ==> slots[..n][i].used);
    }
  }

  /** A snapshot lists every flow of the map exactly once, with its counters and last time. */
  lemma {:induction false} SnapshotLists(slots: seq<Entry>)
    requires DistinctFlows(slots)
    ensures var rows := UsedRows(slots);
            && |rows| == |Flows(slots)|
            && (forall j :: 0 <= j < |rows| ==>
                  rows[j].key in Flows(slots) && Flows(slots)[rows[j].key] == Seen(rows[j].c, rows[j].lastSeen))
            && (forall j, k :: 0 <= j < k < |rows| ==> rows[j].key != rows[k].key)
  {
    if |slots| > 0 {
      SnapshotLists(slots[..|slots| - 1]);
      HoldsIff(slots[..|slots| - 1], slots[|slots| - 1].key);
    }
  }

  predicate Removes(ev: CtEvent, emitDestroy: bool) {
    ev.kind == Destroy && emitDestroy
  }

  ghost predicate LeastSeen(m: map<FlowKey, Seen>, v: FlowKey) {
    v in m && forall k :: k in m ==> m[v].last <= m[k].last
  }

  /** What one event with counters does to a map of at most `cap` flows: its flow gets the event's
      counters and time, or leaves; a new flow in a full map drives out one seen least recently;
      nothing else changes. */
  ghost predicate MapStep(m: map<FlowKey, Seen>, m': map<FlowKey, Seen>, cap: nat, ev: CtEvent, now: nat, emitDestroy: bool)
    requires ev.counters.Some?
  {
    if ev.key in m || |m| < cap then m' == Put(m, ev, now, emitDestroy)
    else exists v :: LeastSeen(m, v) && m' == Put(m - {v}, ev, now, emitDestroy)
  }

  function Put(m: map<FlowKey, Seen>, ev: CtEvent, now: nat, emitDestroy: bool): map<FlowKey, Seen>
    requires ev.counters.Some?
  {
    if Removes(ev, emitDestroy) then m - {ev.key} else m[ev.key := Seen(ev.counters.value, now)]
  }

  ghost predicate Timed(slots: seq<Entry>) {
    forall i :: 0 <= i < |slots| && slots[i].used ==> slots[i].lastSeen < NEVER
  }

  /** The slot that answers the event is the flow's own, or nobody answers. */
  predicate AnsweredByKey(slots: seq<Entry>, ev: CtEvent) {
    var m := FirstMatch(slots, ev);
    m == |slots| || slots[m].key == ev.key
  }

  /** The flow is new, the table full, and the slot that answers by id is one seen least recently. */
  ghost predicate AnsweredByVictim(slots: seq<Entry>, ev: CtEvent) {
    var m := FirstMatch(slots, ev);
    && m < |slots|
    && (forall i :: 0 <= i < |slots| ==> slots[i].used && slots[i].key != ev.key && slots[m].lastSeen <= slots[i].lastSeen)
  }

  // ---- One event ----

  /** Writing a slot that is the flow's own, when no other is, moves the map by one `Put`. */
  lemma SlotTaken(slots: seq<Entry>, i: nat, ev: CtEvent, now: nat, emitDestroy: bool)
    requires DistinctFlows(slots) && i < |slots| && ev.counters.Some?
    requires forall j :: 0 <= j < |slots| && j != i && slots[j].used ==> slots[j].key != ev.key
    ensures var slots' := slots[i := Settled(Written(slots[i], ev, now), ev, emitDestroy)];
            DistinctFlows(slots') && Flows(slots') == Put(Without(Flows(slots), slots[i]), ev, now, emitDestroy)
  {
    var e := Settled(Written(slots[i], ev, now), ev, emitDestroy);
    assert e.key == ev.key && (e.used ==> e.c == ev.counters.value && e.lastSeen == now);
    FlowsUpdate(slots, i, e);
    if Removes(ev, emitDestroy) {
      HoldsIff(slots, ev.key);
      assert ev.key !in Without(Flows(slots), slots[i]);
    }
  }

  /** An event answered by its flow's own slot, or by none, is a step of the map. */
  lemma KeyStepRefines(slots: seq<Entry>, ev: CtEvent, now: nat, emitDestroy: bool)
    requires 0 < |slots| && DistinctFlows(slots) && Timed(slots)
    requires ev.hasLan && ev.counters.Some? && AnsweredByKey(slots, ev)
    ensures var slots' := Apply(slots, ev, now, emitDestroy);
            DistinctFlows(slots') && MapStep(Flows(slots), Flows(slots'), |slots|, ev, now, emitDestroy)
  {
    var m, f := FirstMatch(slots, ev), FirstFree(slots);
    SizeIsUsed(slots);
    HoldsIff(slots, ev.key);
    if m < |slots| {
      OwnStepRefines(slots, m, ev, now, emitDestroy);
    } else if f < |slots| {
      SlotTaken(slots, f, ev, now, emitDestroy);
    } else {
      VictimStepRefines(slots, ev, now, emitDestroy);
    }
  }

  lemma OwnStepRefines(slots: seq<Entry>, i: nat, ev: CtEvent, now: nat, emitDestroy: bool)
    requires DistinctFlows(slots) && ev.counters.Some?
    requires i < |slots| && slots[i].used && slots[i].key == ev.key
    ensures var slots' := slots[i := Settled(Written(slots[i], ev, now), ev, emitDestroy)];
            && ev.key in Flows(slots) && DistinctFlows(slots') && Flows(slots') == Put(Flows(slots), ev, now, emitDestroy)
  {
    SlotTaken(slots, i, ev, now, emitDestroy);
    FlowAt(slots, i);
    PutOver(Flows(slots), ev, now, emitDestroy);
  }

  lemma PutOver(m: map<FlowKey, Seen>, ev: CtEvent, now: nat, emitDestroy: bool)
    requires ev.counters.Some?
    ensures Put(m - {ev.key}, ev, now, emitDestroy) == Put(m, ev, now, emitDestroy)
  {
  }

  lemma VictimStepRefines(slots: seq<Entry>, ev: CtEvent, now: nat, emitDestroy: bool)
    requires 0 < |slots| && DistinctFlows(slots) && Timed(slots) && ev.hasLan && ev.counters.Some?
    requires FirstMatch(slots, ev) == |slots| && FirstFree(slots) == |slots|
    ensures var slots' := Apply(slots, ev, now, emitDestroy);
            && DistinctFlows(slots')
            && exists v :: LeastSeen(Flows(slots), v) && Flows(slots') == Put(Flows(slots) - {v}, ev, now, emitDestroy)
  {
    assert slots[0].used;
    var i := Oldest(slots).value;
    SlotTaken(slots, i, ev, now, emitDestroy);
    VictimIsLeast(slots);
    var v := slots[i].key;
    assert LeastSeen(Flows(slots), v) && Without(Flows(slots), slots[i]) == Flows(slots) - {v};
  }

  lemma VictimIsLeast(slots: seq<Entry>)
    requires DistinctFlows(slots) && Oldest(slots).Some?
    ensures LeastSeen(Flows(slots), slots[Oldest(slots).value].key)
  {
    LeastIff(slots, Oldest(slots).value);
  }

  lemma LeastIff(slots: seq<Entry>, v: nat)
    requires DistinctFlows(slots) && v < |slots| && slots[v].used
    ensures LeastSeen(Flows(slots), slots[v].key)
            <==> (forall i :: 0 <= i < |slots| && slots[i].used ==> slots[v].lastSeen <= slots[i].lastSeen)
  {
    var m := Flows(slots);
    FlowAt(slots, v);
    forall i | 0 <= i < |slots| && slots[i].used
      ensures slots[i].key in m && m[slots[i].key].last == slots[i].lastSeen
    {
      FlowAt(slots, i);
    }
    forall k | k in m
      ensures exists i :: 0 <= i < |slots| && slots[i].used && slots[i].key == k
    {
      var i := SlotOf(slots, k);
    }
  }

  /** Exactly when an event is a step of the map, for any table with distinct flows: when it is
      answered by key or by nobody, or when an id answers for a flow that was to go anyway. */
  lemma StepRefinesIff(slots: seq<Entry>, ev: CtEvent, now: nat, emitDestroy: bool)
    requires 0 < |slots| && DistinctFlows(slots) && Timed(slots)
    requires ev.hasLan && ev.counters.Some?
    ensures var slots' := Apply(slots, ev, now, emitDestroy);
            (DistinctFlows(slots') && MapStep(Flows(slots), Flows(slots'), |slots|, ev, now, emitDestroy))
            <==> (AnsweredByKey(slots, ev) || AnsweredByVictim(slots, ev))
  {
    if AnsweredByKey(slots, ev) {
      KeyStepRefines(slots, ev, now, emitDestroy);
    } else if DistinctFlows(Apply(slots, ev, now, emitDestroy)) {
      IdStepRefinesIff(slots, ev, now, emitDestroy);
    } else if AnsweredByVictim(slots, ev) {
      SlotTaken(slots, FirstMatch(slots, ev), ev, now, emitDestroy);
    }
  }

  /** An event answered by another flow's slot takes that flow out of the map. */
  lemma IdStepRefinesIff(slots: seq<Entry>, ev: CtEvent, now: nat, emitDestroy: bool)
    requires DistinctFlows(slots) && ev.hasLan && ev.counters.Some? && !AnsweredByKey(slots, ev)
    requires DistinctFlows(Apply(slots, ev, now, emitDestroy))
    ensures MapStep(Flows(slots), Flows(Apply(slots, ev, now, emitDestroy)), |slots|, ev, now, emitDestroy)
            <==> AnsweredByVictim(slots, ev)
  {
    var i := FirstMatch(slots, ev);
    var m, m' := Flows(slots), Flows(Apply(slots, ev, now, emitDestroy));
    FlowsUpdate(slots, i, Settled(Written(slots[i], ev, now), ev, emitDestroy));
    FlowAt(slots, i);
    SizeIsUsed(slots);
    HoldsIff(slots, ev.key);
    LeastIff(slots, i);
    LostMapStepIff(m, m', slots[i].key, |slots|, ev, now, emitDestroy);
  }

  /** A map that lost a flow and took in another made a step exactly when it was full without the
      other, and the lost one was seen least recently. */
  lemma LostMapStepIff(m: map<FlowKey, Seen>, m': map<FlowKey, Seen>, lost: FlowKey, cap: nat, ev: CtEvent, now: nat, emitDestroy: bool)
    requires ev.counters.Some? && lost in m && lost != ev.key && lost !in m' && |m| <= cap
    requires ev.key !in m ==> m' == Put(m - {lost}, ev, now, emitDestroy)
    ensures MapStep(m, m', cap, ev, now, emitDestroy) <==> ev.key !in m && |m| == cap && LeastSeen(m, lost)
  {
    assert lost in Put(m, ev, now, emitDestroy);
    forall v | v in m && m' == Put(m - {v}, ev, now, emitDestroy)
      ensures v == lost
    {
    }
  }

  // ---- Events without counters, and destroyed flows ----

  /** Slots that agree on use, flow, counters and time stand for the same map. */
  lemma {:induction false} SameFlows(s: seq<Entry>, t: seq<Entry>)
    requires |s| == |t|
    requires forall i :: 0 <= i < |s| ==>
               s[i].used == t[i].used && s[i].key == t[i].key && s[i].c == t[i].c && s[i].lastSeen == t[i].lastSeen
    ensures Flows(s) == Flows(t) && (DistinctFlows(s) <==> DistinctFlows(t))
  {
    if |s| > 0 {
      SameFlows(s[..|s| - 1], t[..|t| - 1]);
    }
  }

  lemma SlotFound(slots: seq<Entry>, ev: CtEvent)
    requires 0 < |slots| && Timed(slots)
    ensures FindSlot(slots, ev).Some?
  {
    if FirstFree(slots) == |slots| {
      assert slots[0].used;
    }
  }

  /** The event with the counters that its slot goes on showing: its own flow's, zeros in a free
      slot, and the victim's for a flow that drives out another. */
  function WithShown(slots: seq<Entry>, ev: CtEvent): (shown: CtEvent)
    requires FindSlot(slots, ev).Some?
    ensures shown.counters.Some?
  {
    var e := slots[FindSlot(slots, ev).value];
    ev.(counters := Some(if e.used then e.c else NoTraffic))
  }

  lemma SameSlotFound(slots: seq<Entry>, ev: CtEvent, ev': CtEvent)
    requires ev.id == ev'.id && ev.key == ev'.key
    ensures FirstMatch(slots, ev) == FirstMatch(slots, ev')
  {
    assert forall i :: 0 <= i < |slots| ==> Matches(slots[i], ev) == Matches(slots[i], ev');
  }

  lemma ShownActsAlike(slots: seq<Entry>, ev: CtEvent, now: nat, emitDestroy: bool)
    requires ev.counters.None? && FindSlot(slots, ev).Some?
    ensures var shown := WithShown(slots, ev);
            var s, t := Apply(slots, ev, now, emitDestroy), Apply(slots, shown, now, emitDestroy);
            && Flows(s) == Flows(t) && (DistinctFlows(s) <==> DistinctFlows(t))
            && FirstMatch(slots, ev) == FirstMatch(slots, shown)
  {
    SameSlotFound(slots, ev, WithShown(slots, ev));
    SameFlows(Apply(slots, ev, now, emitDestroy), Apply(slots, WithShown(slots, ev), now, emitDestroy));
  }

  /** Exactly when an event without counters is a step of the map, for the counters that its slot
      shows: when one with counters would be. */
  lemma StepWithoutCountersIff(slots: seq<Entry>, ev: CtEvent, now: nat, emitDestroy: bool)
    requires 0 < |slots| && DistinctFlows(slots) && Timed(slots)
    requires ev.hasLan && ev.counters.None? && FindSlot(slots, ev).Some?
    ensures var slots' := Apply(slots, ev, now, emitDestroy);
            (DistinctFlows(slots')
              && MapStep(Flows(slots), Flows(slots'), |slots|, WithShown(slots, ev), now, emitDestroy))
            <==> (AnsweredByKey(slots, ev) || AnsweredByVictim(slots, ev))
  {
    ShownActsAlike(slots, ev, now, emitDestroy);
    StepRefinesIff(slots, WithShown(slots, ev), now, emitDestroy);
  }

  /** A slot given up takes its flow out of the map, and no other. */
  lemma SlotGivenUp(slots: seq<Entry>, i: nat, e: Entry)
    requires DistinctFlows(slots) && i < |slots| && !e.used
    ensures DistinctFlows(slots[i := e])
    ensures Flows(slots[i := e]) == if slots[i].used then Flows(slots) - {slots[i].key} else Flows(slots)
  {
    FlowsUpdate(slots, i, e);
  }

  /** A destroy event, with a tuple or by id alone, takes the flow that answers it out of the map;
      one that nobody answers still drives a least recently seen flow out of a full table. */
  lemma DestroyRemoves(slots: seq<Entry>, ev: CtEvent, now: nat)
    requires 0 < |slots| && DistinctFlows(slots) && Timed(slots)
    requires ev.kind == Destroy && !Ignored(ev)
    ensures var slots' := Apply(slots, ev, now, true);
            var m, flows, flows' := FirstMatch(slots, ev), Flows(slots), Flows(slots');
            && DistinctFlows(slots')
            && (m < |slots| ==> flows' == flows - {slots[m].key})
            && (m == |slots| && |flows| < |slots| ==> flows' == flows)
            && (m == |slots| && |flows| == |slots| ==> exists v :: LeastSeen(flows, v) && flows' == flows - {v})
  {
    SlotFound(slots, ev);
    SizeIsUsed(slots);
    var i := FindSlot(slots, ev).value;
    var e := Settled(Written(slots[i], ev, now), ev, true);
    SlotGivenUp(slots, i, e);
    if FirstMatch(slots, ev) == |slots| && FirstFree(slots) == |slots| {
      VictimIsLeast(slots);
    }
  }

  // ---- Whole runs ----

  /** A table of `cap` slots after a run of events, from empty. */
  function Run(cap: nat, evs: seq<Timely>, emitDestroy: bool): (slots: seq<Entry>)
    ensures |slots| == cap
  {
    RunFrom(seq(cap, _ => EmptyEntry), evs, emitDestroy)
  }

  /** Either no flow ever carries a conntrack id, or every flow carries one of its own. */
  ghost predicate IdsNameFlows(ids: FlowKey -> Option<nat>) {
    || (forall k :: ids(k).None?)
    || ((forall k :: ids(k).Some?) && forall j, k :: ids(j) == ids(k) ==> j == k)
  }

  ghost predicate Regular(evs: seq<Timely>, ids: FlowKey -> Option<nat>) {
    forall i :: 0 <= i < |evs| ==>
      evs[i].ev.hasLan && evs[i].ev.counters.Some? && evs[i].now < NEVER && evs[i].ev.id == ids(evs[i].ev.key)
  }

  /** Event n is the last about its flow, left it in the table, and the slot holds its report. */
  ghost predicate ReportsLatest(e: Entry, evs: seq<Timely>, n: nat, emitDestroy: bool) {
    && n < |evs| && evs[n].ev.key == e.key && !Removes(evs[n].ev, emitDestroy)
    && Some(e.c) == evs[n].ev.counters && e.lastSeen == evs[n].now
    && forall j :: n < j < |evs| ==> evs[j].ev.key != e.key
  }

  ghost predicate HoldsLatest(slots: seq<Entry>, evs: seq<Timely>, emitDestroy: bool, ids: FlowKey -> Option<nat>) {
    && DistinctFlows(slots) && Timed(slots)
    && forall i :: 0 <= i < |slots| && slots[i].used ==>
         slots[i].id == ids(slots[i].key) && exists n :: ReportsLatest(slots[i], evs, n, emitDestroy)
  }

  lemma IdsAnswerByKey(slots: seq<Entry>, ev: CtEvent, ids: FlowKey -> Option<nat>)
    requires IdsNameFlows(ids) && ev.id == ids(ev.key)
    requires forall i :: 0 <= i < |slots| && slots[i].used ==> slots[i].id == ids(slots[i].key)
    ensures forall i :: 0 <= i < |slots| ==> (Matches(slots[i], ev) <==> slots[i].used && slots[i].key == ev.key)
    ensures AnsweredByKey(slots, ev)
  {
  }

  lemma StillLatest(slots: seq<Entry>, evs: seq<Timely>, last: Timely, emitDestroy: bool, ids: FlowKey -> Option<nat>, i: nat)
    requires HoldsLatest(slots, evs, emitDestroy, ids) && IdsNameFlows(ids) && i < |slots|
    requires last.ev.hasLan && last.ev.counters.Some? && last.now < NEVER && last.ev.id == ids(last.ev.key)
    ensures var e := Apply(slots, last.ev, last.now, emitDestroy)[i];
            e.used ==> && e.lastSeen < NEVER && e.id == ids(e.key)
                       && exists n :: ReportsLatest(e, evs + [last], n, emitDestroy)
  {
    IdsAnswerByKey(slots, last.ev, ids);
    var e := Apply(slots, last.ev, last.now, emitDestroy)[i];
    if FindSlot(slots, last.ev) == Some(i) {
      assert e.used ==> ReportsLatest(e, evs + [last], |evs|, emitDestroy);
    } else if e.used {
      var n :| ReportsLatest(slots[i], evs, n, emitDestroy);
      assert slots[i].key != last.ev.key;
      assert ReportsLatest(e, evs + [last], n, emitDestroy);
    }
  }

  /** In every run whose ids name flows: no two used slots share a flow, each holds its flow's id
      and the counters and time of the latest event about it. */
  lemma {:induction false} RunHoldsLatest(cap: nat, evs: seq<Timely>, emitDestroy: bool, ids: FlowKey -> Option<nat>)
    requires IdsNameFlows(ids) && Regular(evs, ids)
    ensures HoldsLatest(Run(cap, evs, emitDestroy), evs, emitDestroy, ids)
  {
    if |evs| > 0 {
      var before, last := evs[..|evs| - 1], evs[|evs| - 1];
      RunHoldsLatest(cap, before, emitDestroy, ids);
      var slots := Run(cap, before, emitDestroy);
      var slots' := Run(cap, evs, emitDestroy);
      assert evs == before + [last];
      if cap > 0 {
        IdsAnswerByKey(slots, last.ev, ids);
        KeyStepRefines(slots, last.ev, last.now, emitDestroy);
      }
      forall i | 0 <= i < cap
        ensures slots'[i].used ==>
                  && slots'[i].lastSeen < NEVER && slots'[i].id == ids(slots'[i].key)
                  && exists n :: ReportsLatest(slots'[i], evs, n, emitDestroy)
      {
        StillLatest(slots, before, last, emitDestroy, ids, i);
      }
    }
  }

  /** In every run whose ids name flows, each event is a step of the map. */
  lemma RunRefines(cap: nat, evs: seq<Timely>, emitDestroy: bool, ids: FlowKey -> Option<nat>)
    requires 0 < cap && 0 < |evs| && IdsNameFlows(ids) && Regular(evs, ids)
    ensures var slots, slots' := Run(cap, evs[..|evs| - 1], emitDestroy), Run(cap, evs, emitDestroy);
            var last := evs[|evs| - 1];
            && DistinctFlows(slots) && DistinctFlows(slots')
            && MapStep(Flows(slots), Flows(slots'), cap, last.ev, last.now, emitDestroy)
  {
    RunHoldsLatest(cap, evs[..|evs| - 1], emitDestroy, ids);
    IdsAnswerByKey(Run(cap, evs[..|evs| - 1], emitDestroy), evs[|evs| - 1].ev, ids);
    KeyStepRefines(Run(cap, evs[..|evs| - 1], emitDestroy), evs[|evs| - 1].ev, evs[|evs| - 1].now, emitDestroy);
  }

  // ---- Whole runs in which counters may be missing ----

  /** As `Regular`, but any event may lack counters. */
  ghost predicate Named(evs: seq<Timely>, ids: FlowKey -> Option<nat>) {
    forall i :: 0 <= i < |evs| ==> evs[i].ev.hasLan && evs[i].now < NEVER && evs[i].ev.id == ids(evs[i].ev.key)
  }

  ghost predicate WellNamed(slots: seq<Entry>, ids: FlowKey -> Option<nat>) {
    && DistinctFlows(slots) && Timed(slots)
    && forall i :: 0 <= i < |slots| && slots[i].used ==> slots[i].id == ids(slots[i].key)
  }

  lemma NamedStep(slots: seq<Entry>, t: Timely, emitDestroy: bool, ids: FlowKey -> Option<nat>)
    requires IdsNameFlows(ids) && WellNamed(slots, ids)
    requires t.ev.hasLan && t.now < NEVER && t.ev.id == ids(t.ev.key)
    ensures AnsweredByKey(slots, t.ev) && WellNamed(Apply(slots, t.ev, t.now, emitDestroy), ids)
    ensures 0 < |slots| ==> FindSlot(slots, t.ev).Some?
  {
    IdsAnswerByKey(slots, t.ev, ids);
    if 0 < |slots| {
      SlotFound(slots, t.ev);
      if t.ev.counters.Some? {
        KeyStepRefines(slots, t.ev, t.now, emitDestroy);
      } else {
        StepWithoutCountersIff(slots, t.ev, t.now, emitDestroy);
      }
    }
  }

  lemma {:induction false} RunNamed(cap: nat, evs: seq<Timely>, emitDestroy: bool, ids: FlowKey -> Option<nat>)
    requires IdsNameFlows(ids) && Named(evs, ids)
    ensures WellNamed(Run(cap, evs, emitDestroy), ids)
  {
    if |evs| > 0 {
      RunNamed(cap, evs[..|evs| - 1], emitDestroy, ids);
      NamedStep(Run(cap, evs[..|evs| - 1], emitDestroy), evs[|evs| - 1], emitDestroy, ids);
    }
  }

  /** In every such run each event is a step of the map, one without counters for those that its
      slot shows. */
  lemma RunRefinesShown(cap: nat, evs: seq<Timely>, emitDestroy: bool, ids: FlowKey -> Option<nat>)
    requires 0 < cap && 0 < |evs| && IdsNameFlows(ids) && Named(evs, ids)
    ensures var slots, slots' := Run(cap, evs[..|evs| - 1], emitDestroy), Run(cap, evs, emitDestroy);
            var last := evs[|evs| - 1];
            && DistinctFlows(slots) && DistinctFlows(slots') && FindSlot(slots, last.ev).Some?
            && MapStep(Flows(slots), Flows(slots'), cap,
                       if last.ev.counters.Some? then last.ev else WithShown(slots, last.ev), last.now, emitDestroy)
  {
    var slots, last := Run(cap, evs[..|evs| - 1], emitDestroy), evs[|evs| - 1];
    RunNamed(cap, evs[..|evs| - 1], emitDestroy, ids);
    NamedStep(slots, last, emitDestroy, ids);
    if last.ev.counters.Some? {
      KeyStepRefines(slots, last.ev, last.now, emitDestroy);
    } else {
      StepWithoutCountersIff(slots, last.ev, last.now, emitDestroy);
    }
  }

  /** Slot i after the first n events. */
  function SlotAfter(cap: nat, evs: seq<Timely>, emitDestroy: bool, i: nat, n: nat): Entry
    requires i < cap && n <= |evs|
  {
    Run(cap, evs[..n], emitDestroy)[i]
  }

  predicate HoldsFlow(e: Entry, k: FlowKey) {
    e.used && e.key == k
  }

  /** Event n is the latest about flow k, and its time is `seen`. */
  ghost predicate LatestAbout(evs: seq<Timely>, n: nat, k: FlowKey, seen: nat) {
    && n < |evs| && evs[n].ev.key == k && evs[n].now == seen
    && forall j :: n < j < |evs| ==> evs[j].ev.key != k
  }

  /** The slot has held its flow since event m, which is about it and is the latest to bring
      counters, those the slot shows; or which brought the flow into the slot without any, so that
      it goes on showing what it did before, zeros if it was free. */
  ghost predicate ShowsSince(cap: nat, evs: seq<Timely>, emitDestroy: bool, i: nat, m: nat)
    requires i < cap
  {
    var e := Run(cap, evs, emitDestroy)[i];
    && m < |evs| && evs[m].ev.key == e.key
    && (forall n :: m < n <= |evs| ==> HoldsFlow(SlotAfter(cap, evs, emitDestroy, i, n), e.key))
    && (forall j :: m < j < |evs| && evs[j].ev.key == e.key ==> evs[j].ev.counters.None?)
    && (if evs[m].ev.counters.Some? then Some(e.c) == evs[m].ev.counters
        else EntersSilently(SlotAfter(cap, evs, emitDestroy, i, m), e))
  }

  predicate EntersSilently(before: Entry, e: Entry) {
    !HoldsFlow(before, e.key) && e.c == if before.used then before.c else NoTraffic
  }

  /** What one event does to a slot in use afterwards: another flow's event leaves it alone; its
      own sets the time, and the counters if it has any. */
  lemma NamedSlot(slots: seq<Entry>, t: Timely, emitDestroy: bool, ids: FlowKey -> Option<nat>, i: nat)
    requires IdsNameFlows(ids) && WellNamed(slots, ids) && i < |slots|
    requires t.ev.hasLan && t.now < NEVER && t.ev.id == ids(t.ev.key)
    ensures var e, e' := slots[i], Apply(slots, t.ev, t.now, emitDestroy)[i];
            e'.used ==>
              if e'.key == t.ev.key
              then && e'.lastSeen == t.now
                   && (t.ev.counters.Some? ==> Some(e'.c) == t.ev.counters)
                   && (t.ev.counters.None? ==> if HoldsFlow(e, e'.key) then e'.c == e.c else EntersSilently(e, e'))
              else e' == e
  {
    IdsAnswerByKey(slots, t.ev, ids);
    SlotFound(slots, t.ev);
  }

  lemma SlotBefore(cap: nat, evs: seq<Timely>, emitDestroy: bool, i: nat, n: nat)
    requires i < cap && n < |evs|
    ensures SlotAfter(cap, evs[..|evs| - 1], emitDestroy, i, n) == SlotAfter(cap, evs, emitDestroy, i, n)
  {
    assert evs[..|evs| - 1][..n] == evs[..n];
  }

  /** A slot that keeps its flow and its counters over one more event goes on showing them since
      the same event. */
  lemma StillShows(cap: nat, evs: seq<Timely>, emitDestroy: bool, i: nat, m: nat)
    requires i < cap && |evs| > 0 && ShowsSince(cap, evs[..|evs| - 1], emitDestroy, i, m)
    requires var e, e', last := Run(cap, evs[..|evs| - 1], emitDestroy)[i], Run(cap, evs, emitDestroy)[i], evs[|evs| - 1];
             e'.used && e'.key == e.key && e'.c == e.c && (last.ev.key == e.key ==> last.ev.counters.None?)
    ensures ShowsSince(cap, evs, emitDestroy, i, m)
  {
    var before := evs[..|evs| - 1];
    var e := Run(cap, evs, emitDestroy)[i];
    forall n | m < n <= |evs|
      ensures HoldsFlow(SlotAfter(cap, evs, emitDestroy, i, n), e.key)
    {
      if n < |evs| {
        SlotBefore(cap, evs, emitDestroy, i, n);
        assert HoldsFlow(SlotAfter(cap, before, emitDestroy, i, n), e.key);
      } else {
        assert evs[..n] == evs;
      }
    }
    SlotBefore(cap, evs, emitDestroy, i, m);
  }

  lemma ShowsNow(cap: nat, evs: seq<Timely>, emitDestroy: bool, i: nat)
    requires i < cap && |evs| > 0
    requires var e, e', last := Run(cap, evs[..|evs| - 1], emitDestroy)[i], Run(cap, evs, emitDestroy)[i], evs[|evs| - 1];
             && e'.used && e'.key == last.ev.key
             && if last.ev.counters.Some? then Some(e'.c) == last.ev.counters else EntersSilently(e, e')
    ensures ShowsSince(cap, evs, emitDestroy, i, |evs| - 1)
  {
    assert evs[..|evs|] == evs;
  }

  /** In every run whose ids name flows, counters or not: no two used slots share a flow, and each
      holds its flow's id, the time of the latest event about it, and the counters of the latest
      one with any since it entered, or else what its slot showed when it did. */
  lemma {:induction false} RunHoldsShown(cap: nat, evs: seq<Timely>, emitDestroy: bool, ids: FlowKey -> Option<nat>, i: nat)
    requires IdsNameFlows(ids) && Named(evs, ids) && i < cap
    ensures var slots := Run(cap, evs, emitDestroy);
            && WellNamed(slots, ids)
            && (slots[i].used ==>
                  && (exists n :: LatestAbout(evs, n, slots[i].key, slots[i].lastSeen))
                  && (exists m :: ShowsSince(cap, evs, emitDestroy, i, m)))
  {
    RunNamed(cap, evs, emitDestroy, ids);
    if |evs| > 0 && Run(cap, evs, emitDestroy)[i].used {
      var before, last := evs[..|evs| - 1], evs[|evs| - 1];
      var slots, e := Run(cap, before, emitDestroy), Run(cap, evs, emitDestroy)[i];
      RunHoldsShown(cap, before, emitDestroy, ids, i);
      NamedSlot(slots, last, emitDestroy, ids, i);
      assert evs == before + [last];
      if e.key == last.ev.key {
        assert LatestAbout(evs, |evs| - 1, e.key, e.lastSeen);
      } else {
        var n :| LatestAbout(before, n, e.key, e.lastSeen);
        assert LatestAbout(evs, n, e.key, e.lastSeen);
      }
      if e.key == last.ev.key && (last.ev.counters.Some? || !HoldsFlow(slots[i], e.key)) {
        ShowsNow(cap, evs, emitDestroy, i);
      } else {
        var m :| ShowsSince(cap, before, emitDestroy, i, m);
        StillShows(cap, evs, emitDestroy, i, m);
      }
    }
  }

  ghost predicate AllAlive(slots: seq<Entry>) {
    forall i :: 0 <= i < |slots| && slots[i].used ==> slots[i].alive
  }

  lemma ApplyAllAlive(slots: seq<Entry>, ev: CtEvent, now: nat)
    requires AllAlive(slots)
    ensures AllAlive(Apply(slots, ev, now, true))
  {
  }

  /** While destroyed flows are emitted, every flow in the table is alive, so it can be sampled. */
  lemma {:induction false} UsedIsAlive(cap: nat, evs: seq<Timely>)
    ensures AllAlive(Run(cap, evs, true))
  {
    if |evs| == 0 {
      assert forall i :: 0 <= i < cap ==> Run(cap, [], true)[i] == EmptyEntry;
    } else {
      UsedIsAlive(cap, evs[..|evs| - 1]);
      ApplyAllAlive(Run(cap, evs[..|evs| - 1], true), evs[|evs| - 1].ev, evs[|evs| - 1].now);
    }
  }

  /** Otherwise a flow first heard of by its destruction stays in its slot, never alive: further
      events about it do not revive it. */
  lemma DeadFlowStaysDead(slots: seq<Entry>, ev: CtEvent, now: nat, i: nat)
    requires i < |slots| && slots[i].used && !slots[i].alive
    ensures var e := Apply(slots, ev, now, false)[i];
            e.used && !e.alive
  {
  }

  // ---- When ids name only some flows ----

  function Sighting(k: FlowKey, id: Option<nat>): CtEvent {
    CtEvent(Update, false, true, id, k, V4(0), 0, Some(NoTraffic))
  }

  function StaleRun(a: FlowKey, b: FlowKey, c: FlowKey): seq<Timely> {
    [Timely(Sighting(a, Some(1)), 1), Timely(Sighting(c, Some(3)), 5), Timely(Sighting(b, None), 6)]
  }

  lemma StaleRunEnds(a: FlowKey, b: FlowKey, c: FlowKey)
    requires a != b && b != c && a != c
    ensures var s := Run(2, StaleRun(a, b, c), true);
            && s[0].used && s[0].key == b && s[0].id == Some(1) && s[0].lastSeen == 6
            && s[1].used && s[1].key == c && s[1].id == Some(3) && s[1].lastSeen == 5
  {
    var evs := StaleRun(a, b, c);
    assert evs[..2][..1] == evs[..1] && evs[..1][..0] == [];
    var s0 := Run(2, [], true);
    assert s0 == [EmptyEntry, EmptyEntry] && !s0[0].used && !s0[1].used;
    assert FirstMatch(s0, evs[0].ev) == 2 && FirstFree(s0) == 0;
    var s1 := Run(2, evs[..1], true);
    assert s1 == [FromEvent(evs[0].ev, 1), EmptyEntry];
    assert FirstMatch(s1, evs[1].ev) == 2 && FirstFree(s1) == 1;
    var s2 := Run(2, evs[..2], true);
    assert s2 == [FromEvent(evs[0].ev, 1), FromEvent(evs[1].ev, 5)];
    assert s2[..1] == [FromEvent(evs[0].ev, 1)] && s2[..1][..0] == [];
    assert FirstMatch(s2, evs[2].ev) == 2 && FirstFree(s2) == 2 && Oldest(s2) == Some(0);
  }

  /** Conntrack events without an id leave a victim's id behind in its slot. Two slots: flow A is
      seen with id 1 at time 1 and C with id 3 at time 5; B arrives without an id at time 6 and
      drives out A, whose id stays in the slot; A comes back at time 7 with its id and is taken
      for B, so B leaves the table though C was seen less recently. */
  lemma StaleIdTakesAnotherFlow(a: FlowKey, b: FlowKey, c: FlowKey)
    requires a != b && b != c && a != c
    ensures var back := Sighting(a, Some(1));
            var slots := Run(2, StaleRun(a, b, c), true);
            var slots' := Apply(slots, back, 7, true);
            && DistinctFlows(slots) && b in Flows(slots) && c in Flows(slots)
            && b !in Flows(slots') && c in Flows(slots')
            && !MapStep(Flows(slots), Flows(slots'), 2, back, 7, true)
  {
    var back := Sighting(a, Some(1));
    var slots := Run(2, StaleRun(a, b, c), true);
    StaleRunEnds(a, b, c);
    assert FirstMatch(slots, back) == 0;
    StepRefinesIff(slots, back, 7, true);
    var slots' := Apply(slots, back, 7, true);
    assert slots'[0].key == a && slots'[1] == slots[1];
    HoldsIff(slots, b);
    HoldsIff(slots, c);
    HoldsIff(slots', b);
    HoldsIff(slots', c);
  }
}
