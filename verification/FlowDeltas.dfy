/** The byte deltas and rates of a flow slot over whole runs of events. */
module FlowDeltas {
  import opened Wrappers
  import opened FlowTable

  datatype Direction = Up | Down

  function Octets(e: Entry, d: Direction): nat {
    if d == Up then e.c.up else e.c.down
  }

  function DeltaOf(e: Entry, d: Direction): nat {
    if d == Up then e.upDelta else e.downDelta
  }

  function RateOf(e: Entry, d: Direction): real {
    if d == Up then e.upRate else e.downRate
  }

  /** The event brings counters and writes slot i. */
  predicate Meters(slots: seq<Entry>, ev: CtEvent, i: nat) {
    !Ignored(ev) && FindSlot(slots, ev) == Some(i) && ev.counters.Some?
  }

  /** The deltas that a run writes to slot i, added up. */
  function DeltaSum(slots: seq<Entry>, evs: seq<Timely>, emitDestroy: bool, i: nat, d: Direction): nat
    requires i < |slots|
  {
    if |evs| == 0 then 0
    else
      var before := evs[..|evs| - 1];
      DeltaSum(slots, before, emitDestroy, i, d)
        + if Meters(RunFrom(slots, before, emitDestroy), evs[|evs| - 1].ev, i)
          then DeltaOf(RunFrom(slots, evs, emitDestroy)[i], d) else 0
  }

  /** The counters that slot i held whenever they went down, added up. */
  function Restarts(slots: seq<Entry>, evs: seq<Timely>, emitDestroy: bool, i: nat, d: Direction): nat
    requires i < |slots|
  {
    if |evs| == 0 then 0
    else
      var before := evs[..|evs| - 1];
      var held := Octets(RunFrom(slots, before, emitDestroy)[i], d);
      Restarts(slots, before, emitDestroy, i, d)
        + if Octets(RunFrom(slots, evs, emitDestroy)[i], d) < held then held else 0
  }

  ghost predicate StaysInUse(slots: seq<Entry>, evs: seq<Timely>, emitDestroy: bool, i: nat)
    requires i < |slots|
  {
    forall n :: 0 <= n <= |evs| ==> RunFrom(slots, evs[..n], emitDestroy)[i].used
  }

  /** What slot i holds after the first n events. */
  function HeldAfter(slots: seq<Entry>, evs: seq<Timely>, emitDestroy: bool, i: nat, d: Direction, n: nat): nat
    requires i < |slots| && n <= |evs|
  {
    Octets(RunFrom(slots, evs[..n], emitDestroy)[i], d)
  }

  ghost predicate NeverFalls(slots: seq<Entry>, evs: seq<Timely>, emitDestroy: bool, i: nat, d: Direction)
    requires i < |slots|
  {
    forall n :: 0 < n <= |evs| ==>
      HeldAfter(slots, evs, emitDestroy, i, d, n - 1) <= HeldAfter(slots, evs, emitDestroy, i, d, n)
  }

  /** What one event does to a slot in use: without new counters its bytes and deltas stay; with
      them, the delta is what the bytes grew by, or all of them if they fell. */
  lemma OneEvent(slots: seq<Entry>, ev: CtEvent, now: nat, emitDestroy: bool, i: nat, d: Direction)
    requires i < |slots| && slots[i].used
    ensures var e, e' := slots[i], Apply(slots, ev, now, emitDestroy)[i];
            && (!Meters(slots, ev, i) ==> Octets(e', d) == Octets(e, d) && DeltaOf(e', d) == DeltaOf(e, d))
            && (Meters(slots, ev, i) ==>
                  DeltaOf(e', d) + Octets(e, d) == Octets(e', d) + if Octets(e', d) < Octets(e, d) then Octets(e, d) else 0)
  {
  }

  /** While a slot stays in use, whichever events reach it and whoever's flow it holds: the deltas
      written to it add up to its last bytes less its first, plus what each fall started over. */
  lemma {:induction false} DeltasTelescope(slots: seq<Entry>, evs: seq<Timely>, emitDestroy: bool, i: nat, d: Direction)
    requires i < |slots| && StaysInUse(slots, evs, emitDestroy, i)
    ensures DeltaSum(slots, evs, emitDestroy, i, d) + Octets(slots[i], d)
              == Octets(RunFrom(slots, evs, emitDestroy)[i], d) + Restarts(slots, evs, emitDestroy, i, d)
  {
    if |evs| > 0 {
      var before, last := evs[..|evs| - 1], evs[|evs| - 1];
      forall n | 0 <= n <= |before|
        ensures RunFrom(slots, before[..n], emitDestroy)[i].used
      {
        assert before[..n] == evs[..n];
      }
      DeltasTelescope(slots, before, emitDestroy, i, d);
      OneEvent(RunFrom(slots, before, emitDestroy), last.ev, last.now, emitDestroy, i, d);
      assert evs[..|evs| - 1] == before;
    } else {
      assert evs[..0] == evs;
    }
  }

  lemma NeverFallsLonger(slots: seq<Entry>, evs: seq<Timely>, emitDestroy: bool, i: nat, d: Direction)
    requires i < |slots| && |evs| > 0
    ensures NeverFalls(slots, evs, emitDestroy, i, d)
            <==> && NeverFalls(slots, evs[..|evs| - 1], emitDestroy, i, d)
                 && HeldAfter(slots, evs, emitDestroy, i, d, |evs| - 1) <= HeldAfter(slots, evs, emitDestroy, i, d, |evs|)
  {
    var before := evs[..|evs| - 1];
    forall n | 0 <= n <= |before|
      ensures HeldAfter(slots, before, emitDestroy, i, d, n) == HeldAfter(slots, evs, emitDestroy, i, d, n)
    {
      assert before[..n] == evs[..n];
    }
  }

  lemma {:induction false} NoFallNoRestart(slots: seq<Entry>, evs: seq<Timely>, emitDestroy: bool, i: nat, d: Direction)
    requires i < |slots|
    ensures Restarts(slots, evs, emitDestroy, i, d) == 0 <==> NeverFalls(slots, evs, emitDestroy, i, d)
  {
    if |evs| > 0 {
      NoFallNoRestart(slots, evs[..|evs| - 1], emitDestroy, i, d);
      NeverFallsLonger(slots, evs, emitDestroy, i, d);
      assert evs[..|evs|] == evs;
    }
  }

  /** So the deltas add up to last minus first exactly when the slot's bytes never fall. */
  lemma DeltasAreGrowthIff(slots: seq<Entry>, evs: seq<Timely>, emitDestroy: bool, i: nat, d: Direction)
    requires i < |slots| && StaysInUse(slots, evs, emitDestroy, i)
    ensures DeltaSum(slots, evs, emitDestroy, i, d) == Octets(RunFrom(slots, evs, emitDestroy)[i], d) - Octets(slots[i], d)
            <==> NeverFalls(slots, evs, emitDestroy, i, d)
  {
    DeltasTelescope(slots, evs, emitDestroy, i, d);
    NoFallNoRestart(slots, evs, emitDestroy, i, d);
  }

  // ---- From the entry of a flow on ----

  /** An event that fills a free slot: its flow, addresses and counters, no deltas, no rates, and
      the same time as first and as last one. */
  lemma FreeSlotFilled(slots: seq<Entry>, ev: CtEvent, now: nat, emitDestroy: bool, i: nat)
    requires i < |slots| && !slots[i].used && !Ignored(ev) && FindSlot(slots, ev) == Some(i)
    ensures var e := Apply(slots, ev, now, emitDestroy)[i];
            && e.used == !(ev.kind == Destroy && emitDestroy) && e.alive == (ev.kind != Destroy)
            && e.id == ev.id && e.key == ev.key && e.wan == ev.wan && e.wanPort == ev.wanPort && e.state == ev.kind
            && (ev.counters.Some? ==> e.c == ev.counters.value)
            && (ev.counters.None? ==> e.c == Traffic(0, 0, 0, 0))
            && e.upDelta == 0 && e.downDelta == 0 && e.upRate == 0.0 && e.downRate == 0.0
            && e.firstSeen == now && e.lastSeen == now
  {
  }

  /** An event that reaches a slot in use: the flow, addresses, state and last time are the event's,
      the id too if it has one; the first time stays. */
  lemma UsedSlotUpdated(slots: seq<Entry>, ev: CtEvent, now: nat, emitDestroy: bool, i: nat)
    requires i < |slots| && slots[i].used && !Ignored(ev) && FindSlot(slots, ev) == Some(i)
    ensures var was, e := slots[i], Apply(slots, ev, now, emitDestroy)[i];
            && e.used == !(ev.kind == Destroy && emitDestroy)
            && e.alive == (was.alive && e.used)
            && e.id == (if ev.id.Some? then ev.id else was.id)
            && e.key == ev.key && e.wan == ev.wan && e.wanPort == ev.wanPort && e.state == ev.kind
            && (ev.counters.Some? ==> e.c == ev.counters.value)
            && (ev.counters.None? ==> e.c == was.c && e.upRate == was.upRate && e.downRate == was.downRate)
            && e.firstSeen == (if was.firstSeen == 0 then now else was.firstSeen) && e.lastSeen == now
  {
  }

  lemma {:induction false} RunSplits(slots: seq<Entry>, first: Timely, rest: seq<Timely>, emitDestroy: bool)
    ensures RunFrom(slots, [first] + rest, emitDestroy)
            == RunFrom(Apply(slots, first.ev, first.now, emitDestroy), rest, emitDestroy)
    decreases |rest|
  {
    var evs := [first] + rest;
    if |rest| > 0 {
      assert evs[..|evs| - 1] == [first] + rest[..|rest| - 1];
      RunSplits(slots, first, rest[..|rest| - 1], emitDestroy);
    } else {
      assert evs[..0] == [];
    }
  }

  lemma {:induction false} DeltasSplit(slots: seq<Entry>, first: Timely, rest: seq<Timely>, emitDestroy: bool, i: nat, d: Direction)
    requires i < |slots|
    ensures DeltaSum(slots, [first] + rest, emitDestroy, i, d)
            == DeltaSum(slots, [first], emitDestroy, i, d)
               + DeltaSum(Apply(slots, first.ev, first.now, emitDestroy), rest, emitDestroy, i, d)
    decreases |rest|
  {
    var evs := [first] + rest;
    if |rest| > 0 {
      assert evs[..|evs| - 1] == [first] + rest[..|rest| - 1];
      DeltasSplit(slots, first, rest[..|rest| - 1], emitDestroy, i, d);
      RunSplits(slots, first, rest[..|rest| - 1], emitDestroy);
      RunSplits(slots, first, rest, emitDestroy);
    } else {
      assert evs == [first];
    }
  }

  /** The bytes that a flow came in with. */
  function Brought(ev: CtEvent, d: Direction): nat {
    if ev.counters.None? then 0 else if d == Up then ev.counters.value.up else ev.counters.value.down
  }

  lemma FirstDeltaIsZero(slots: seq<Entry>, first: Timely, emitDestroy: bool, i: nat, d: Direction)
    requires i < |slots| && !slots[i].used && !Ignored(first.ev) && FindSlot(slots, first.ev) == Some(i)
    ensures DeltaSum(slots, [first], emitDestroy, i, d) == 0
    ensures Octets(Apply(slots, first.ev, first.now, emitDestroy)[i], d) == Brought(first.ev, d)
  {
    FreeSlotFilled(slots, first.ev, first.now, emitDestroy, i);
    assert [first][..0] == [];
    assert RunFrom(slots, [first], emitDestroy) == Apply(slots, first.ev, first.now, emitDestroy);
    assert DeltaSum(slots, [], emitDestroy, i, d) == 0;
  }

  /** From the event that brings a flow into a free slot on: the slot's deltas, the first included,
      add up to its last bytes less those the flow came in with, plus what each fall started over. */
  lemma DeltasSinceEntry(slots: seq<Entry>, first: Timely, rest: seq<Timely>, emitDestroy: bool, i: nat, d: Direction)
    requires i < |slots| && !slots[i].used && !Ignored(first.ev) && FindSlot(slots, first.ev) == Some(i)
    requires StaysInUse(Apply(slots, first.ev, first.now, emitDestroy), rest, emitDestroy, i)
    ensures var evs, entered := [first] + rest, Apply(slots, first.ev, first.now, emitDestroy);
            DeltaSum(slots, evs, emitDestroy, i, d) + Brought(first.ev, d)
            == Octets(RunFrom(slots, evs, emitDestroy)[i], d) + Restarts(entered, rest, emitDestroy, i, d)
  {
    DeltasSplit(slots, first, rest, emitDestroy, i, d);
    RunSplits(slots, first, rest, emitDestroy);
    FirstDeltaIsZero(slots, first, emitDestroy, i, d);
    DeltasTelescope(Apply(slots, first.ev, first.now, emitDestroy), rest, emitDestroy, i, d);
  }

  /** A metered slot's rate is its delta in bits per second over the time since it was last seen;
      at the same or an earlier time the rate stays what it was. */
  lemma RateTimesElapsed(slots: seq<Entry>, ev: CtEvent, now: nat, emitDestroy: bool, i: nat, d: Direction)
    requires i < |slots| && slots[i].used && Meters(slots, ev, i)
    ensures var e, e' := slots[i], Apply(slots, ev, now, emitDestroy)[i];
            && (now > e.lastSeen ==> RateOf(e', d) * (now - e.lastSeen) as real == 8000.0 * DeltaOf(e', d) as real)
            && (now <= e.lastSeen ==> RateOf(e', d) == RateOf(e, d))
  {
    MeteredRate(slots, ev, now, emitDestroy, i, d);
    var e' := Apply(slots, ev, now, emitDestroy)[i];
    if now > slots[i].lastSeen {
      RatioTimes(DeltaOf(e', d) as real * 8000.0, (now - slots[i].lastSeen) as real);
    }
  }

  lemma MeteredRate(slots: seq<Entry>, ev: CtEvent, now: nat, emitDestroy: bool, i: nat, d: Direction)
    requires i < |slots| && slots[i].used && Meters(slots, ev, i)
    ensures var e, e' := slots[i], Apply(slots, ev, now, emitDestroy)[i];
            RateOf(e', d) == Rate(DeltaOf(e', d), if now > e.lastSeen then now - e.lastSeen else 0, RateOf(e, d))
  {
  }

  lemma RatioTimes(x: real, y: real)
    requires y != 0.0
    ensures x / y * y == x
  {
  }

  /** A flow that drives out another is charged its first bytes against the victim's, not
      against zero. */
  lemma VictimSetsFirstDelta(slots: seq<Entry>, ev: CtEvent, now: nat, emitDestroy: bool, d: Direction)
    requires ev.hasLan && ev.counters.Some?
    requires FirstMatch(slots, ev) == |slots| && FirstFree(slots) == |slots| && Oldest(slots).Some?
    ensures var v := Oldest(slots).value;
            var e' := Apply(slots, ev, now, emitDestroy)[v];
            && e'.key == ev.key && e'.firstSeen == (if slots[v].firstSeen == 0 then now else slots[v].firstSeen)
            && DeltaOf(e', d) == Increase(Octets(slots[v], d), if d == Up then ev.counters.value.up else ev.counters.value.down)
  {
  }
}
