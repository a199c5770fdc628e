/** The conntrack flow table: a fixed array of slots, searched, filled and evicted in place. */
module FlowTable {
  import opened Bytes
  import opened Wrappers
  import opened TcpParse
  import NetlinkWalk

  const FLOW_MAX: nat := 1024
  const NEVER: nat := U64 - 1

  datatype Kind = New | Update | Destroy | Other

  /** What a flow is looked up by. */
  datatype FlowKey = FlowKey(proto: nat, lan: Addr, lanPort: nat, remote: Addr, remotePort: nat)

  /** Conntrack's counters; the bytes of the original direction go up, those of the reply down. */
  datatype Traffic = Traffic(upPkts: nat, up: nat, downPkts: nat, down: nat)

  const NoTraffic := Traffic(0, 0, 0, 0)

  /** One decoded conntrack event. Without a LAN tuple the key fields are zero addresses. */
  datatype CtEvent = CtEvent(kind: Kind, isDestroy: bool, hasLan: bool, id: Option<nat>, key: FlowKey,
                             wan: Addr, wanPort: nat, counters: Option<Traffic>)

  datatype Entry = Entry(used: bool, alive: bool, id: Option<nat>, key: FlowKey, wan: Addr, wanPort: nat,
                         c: Traffic, upDelta: nat, downDelta: nat, upRate: real, downRate: real,
                         firstSeen: nat, lastSeen: nat, state: Kind)

  const EmptyKey := FlowKey(0, V4(0), 0, V4(0), 0)
  const EmptyEntry := Entry(false, false, None, EmptyKey, V4(0), 0, NoTraffic, 0, 0, 0.0, 0.0, 0, 0, Other)

  // ---- Finding a slot ----

  /** A used slot answers an event by conntrack id or by key. */
  predicate Matches(e: Entry, ev: CtEvent) {
    e.used && ((ev.id.Some? && e.id == ev.id) || e.key == ev.key)
  }

  /** The first slot that answers an event, or the number of slots. */
  function FirstMatch(slots: seq<Entry>, ev: CtEvent): (i: nat)
    ensures i <= |slots|
    ensures i < |slots| ==> Matches(slots[i], ev)
    ensures forall j :: 0 <= j < i ==> !Matches(slots[j], ev)
  {
    if |slots| == 0 then 0
    else
      var i := FirstMatch(slots[..|slots| - 1], ev);
      if i == |slots| - 1 && !Matches(slots[|slots| - 1], ev) then |slots| else i
  }

  function FirstFree(slots: seq<Entry>): (i: nat)
    ensures i <= |slots|
    ensures i < |slots| ==> !slots[i].used
    ensures forall j :: 0 <= j < i ==> slots[j].used
  {
    if |slots| == 0 then 0
    else
      var i := FirstFree(slots[..|slots| - 1]);
      if i == |slots| - 1 && slots[|slots| - 1].used then |slots| else i
  }

  /** The least last-seen time of a used slot, NEVER if there is none. */
  function OldestTime(slots: seq<Entry>): (t: nat)
    ensures t <= NEVER
    ensures forall j :: 0 <= j < |slots| && slots[j].used ==> t <= slots[j].lastSeen
  {
    if |slots| == 0 then NEVER
    else
      var t := OldestTime(slots[..|slots| - 1]);
      var e := slots[|slots| - 1];
      if e.used && e.lastSeen < t then e.lastSeen else t
  }

  /** The first used slot with the least last-seen time, if any used slot was seen before NEVER. */
  function Oldest(slots: seq<Entry>): (i: Option<nat>)
    ensures i.None? <==> OldestTime(slots) == NEVER
    ensures i.Some? ==> i.value < |slots| && slots[i.value].used && slots[i.value].lastSeen == OldestTime(slots)
  {
    if |slots| == 0 then None
    else
      var e := slots[|slots| - 1];
      if e.used && e.lastSeen < OldestTime(slots[..|slots| - 1]) then Some(|slots| - 1)
      else Oldest(slots[..|slots| - 1])
  }

  /** The matching slot, else the first free one, else the oldest. */
  function FindSlot(slots: seq<Entry>, ev: CtEvent): (i: Option<nat>)
    ensures i.Some? ==> i.value < |slots|
  {
    var m, f := FirstMatch(slots, ev), FirstFree(slots);
    if m < |slots| then Some(m)
    else if f < |slots| then Some(f)
    else Oldest(slots)
  }

  /** What one more slot does to the scan for a free and for the oldest slot. */
  lemma ScanMore(slots: seq<Entry>, i: nat)
    requires i < |slots|
    ensures var s, s', e := slots[..i], slots[..i + 1], slots[i];
            && FirstFree(s') == (if FirstFree(s) < i then FirstFree(s) else if e.used then i + 1 else i)
            && OldestTime(s') == (if e.used && e.lastSeen < OldestTime(s) then e.lastSeen else OldestTime(s))
            && Oldest(s') == (if e.used && e.lastSeen < OldestTime(s) then Some(i) else Oldest(s))
  {
    assert slots[..i + 1][..i] == slots[..i];
  }

  // ---- Writing a slot ----

  function Increase(prev: nat, cur: nat): (d: nat) {
    if prev <= cur then cur - prev else cur
  }

  function Rate(delta: nat, dt: nat, before: real): real {
    if dt > 0 then delta as real * 8000.0 / dt as real else before
  }

  function FromEvent(ev: CtEvent, now: nat): Entry {
    Entry(true, ev.kind != Destroy, ev.id, ev.key, ev.wan, ev.wanPort,
          if ev.counters.Some? then ev.counters.value else NoTraffic,
          0, 0, 0.0, 0.0, now, now, ev.kind)
  }

  /** New counters for a slot, with deltas and rates against those it held. */
  function Metered(e: Entry, c: Traffic, prev: Traffic, prevMs: nat, now: nat): Entry {
    var dt := if now > prevMs then now - prevMs else 0;
    var up, down := Increase(prev.up, c.up), Increase(prev.down, c.down);
    e.(c := c, upDelta := up, downDelta := down, upRate := Rate(up, dt, e.upRate), downRate := Rate(down, dt, e.downRate))
  }

  /** The slot after an event: a free slot is filled; a used one, a victim's included, is updated
      and keeps its first-seen time and, without new counters, its traffic. */
  function Written(slot: Entry, ev: CtEvent, now: nat): Entry {
    if !slot.used then FromEvent(ev, now)
    else
      var e := slot.(firstSeen := if slot.firstSeen == 0 then now else slot.firstSeen, lastSeen := now,
                     id := if ev.id.Some? then ev.id else slot.id,
                     key := ev.key, wan := ev.wan, wanPort := ev.wanPort, state := ev.kind);
      if ev.counters.Some? then Metered(e, ev.counters.value, slot.c, slot.lastSeen, now) else e
  }

  predicate Ignored(ev: CtEvent) {
    !ev.hasLan && !(ev.isDestroy && ev.id.Some?)
  }

  /** A destroyed flow's slot is given up once its final line is formatted. */
  function Settled(e: Entry, ev: CtEvent, emitDestroy: bool): Entry {
    if ev.kind == Destroy && emitDestroy then e.(alive := false, used := false) else e
  }

  /** All slots after an event. */
  function Apply(slots: seq<Entry>, ev: CtEvent, now: nat, emitDestroy: bool): (slots': seq<Entry>)
    ensures |slots'| == |slots|
  {
    var i := FindSlot(slots, ev);
    if Ignored(ev) || i.None? then slots
    else slots[i.value := Settled(Written(slots[i.value], ev, now), ev, emitDestroy)]
  }

  /** An event and the time at which it is applied. */
  datatype Timely = Timely(ev: CtEvent, now: nat)

  function RunFrom(slots: seq<Entry>, evs: seq<Timely>, emitDestroy: bool): (slots': seq<Entry>)
    ensures |slots'| == |slots|
  {
    if |evs| == 0 then slots
    else
      var last := evs[|evs| - 1];
      Apply(RunFrom(slots, evs[..|evs| - 1], emitDestroy), last.ev, last.now, emitDestroy)
  }

  datatype Outcome = Refused | Kept | Removed

  function Report(slots: seq<Entry>, ev: CtEvent, emitDestroy: bool): Outcome {
    if Ignored(ev) then Kept
    else if FindSlot(slots, ev).None? then Refused
    else if ev.kind == Destroy && emitDestroy then Removed
    else Kept
  }

  /** How many events of a run are not refused. */
  function Taken(slots: seq<Entry>, evs: seq<Timely>, emitDestroy: bool): nat {
    if |evs| == 0 then 0
    else
      var before := evs[..|evs| - 1];
      Taken(slots, before, emitDestroy)
        + if Report(RunFrom(slots, before, emitDestroy), evs[|evs| - 1].ev, emitDestroy) == Refused then 0 else 1
  }

  /** The used slots, in table order. */
  function UsedRows(slots: seq<Entry>): seq<Entry> {
    if |slots| == 0 then []
    else UsedRows(slots[..|slots| - 1]) + if slots[|slots| - 1].used then [slots[|slots| - 1]] else []
  }

  function CountUsed(slots: seq<Entry>): nat {
    if |slots| == 0 then 0
    else CountUsed(slots[..|slots| - 1]) + if slots[|slots| - 1].used then 1 else 0
  }

  lemma {:induction false} CountUsedUpdate(slots: seq<Entry>, i: nat, e: Entry)
    requires i < |slots|
    ensures CountUsed(slots[i := e]) + (if slots[i].used then 1 else 0)
              == CountUsed(slots) + (if e.used then 1 else 0)
  {
    var n := |slots| - 1;
    if i < n {
      assert slots[i := e][..n] == slots[..n][i := e];
      CountUsedUpdate(slots[..n], i, e);
    } else {
      assert slots[i := e][..n] == slots[..n];
    }
  }

  // ---- The table in place ----

  class FlowState {
    const table: array<Entry>
    var tableUsed: nat
    var maxFlows: nat
    var emitDestroy: bool
    var eventsIn: nat
    var destroysEmitted: nat

    ghost predicate Valid()
      reads this, table
    {
      && table.Length == FLOW_MAX
      && tableUsed == CountUsed(table[..])
    }

    function Limit(): nat
      reads this`maxFlows
    {
      Min(maxFlows, FLOW_MAX)
    }

    ghost function Slots(): seq<Entry>
      requires table.Length == FLOW_MAX
      reads this`maxFlows, table
    {
      table[..Limit()]
    }

    constructor (max: nat, emit: bool)
      ensures Valid() && maxFlows == max && emitDestroy == emit && |Slots()| == Min(max, 1024)
      ensures forall i :: 0 <= i < FLOW_MAX ==> table[i] == EmptyEntry
      ensures fresh(table)
    {
      table := new Entry[FLOW_MAX](_ => EmptyEntry);
      tableUsed, maxFlows, emitDestroy, eventsIn, destroysEmitted := 0, max, emit, 0, 0;
      new;
      NoneUsed(table[..]);
    }

    method FindSlotIndex(ev: CtEvent) returns (r: Option<nat>)
      requires Valid()
      ensures r == FindSlot(Slots(), ev)
    {
      ghost var slots := Slots();
      var free: Option<nat> := None;
      var oldest := NEVER;
      var oldestAt: Option<nat> := None;
      var i := 0;
      while i < maxFlows && i < FLOW_MAX
        invariant 0 <= i <= Limit()
        invariant forall j :: 0 <= j < i ==> !Matches(slots[j], ev)
        invariant free == if FirstFree(slots[..i]) < i then Some(FirstFree(slots[..i])) else None
        invariant oldest == OldestTime(slots[..i]) && oldestAt == Oldest(slots[..i])
      {
        var e := table[i];
        assert e == slots[i];
        ScanMore(slots, i);
        if !e.used {
          if free.None? {
            free := Some(i);
          }
        } else {
          if Matches(e, ev) {
            assert FirstMatch(slots, ev) == i;
            return Some(i);
          }
          if e.lastSeen < oldest {
            oldest, oldestAt := e.lastSeen, Some(i);
          }
        }
        i := i + 1;
      }
      assert slots[..i] == slots && FirstMatch(slots, ev) == i;
      if free.Some? {
        return free;
      }
      return oldestAt;
    }

    /** Applies one event; `pushed` says whether the spool took a destroyed flow's final line. */
    method ApplyEvent(ev: CtEvent, now: nat, pushed: bool) returns (r: Outcome)
      requires Valid()
      modifies this`tableUsed, this`eventsIn, this`destroysEmitted, table
      ensures Valid()
      ensures Slots() == Apply(old(Slots()), ev, now, emitDestroy)
      ensures table[Limit()..] == old(table[Limit()..])
      ensures r == Report(old(Slots()), ev, emitDestroy)
      ensures eventsIn == old(eventsIn) + if Ignored(ev) || r == Refused then 0 else 1
      ensures destroysEmitted == old(destroysEmitted) + if r == Removed && pushed then 1 else 0
    {
      if !ev.hasLan && !(ev.isDestroy && ev.id.Some?) {
        return Kept;
      }
      var found := FindSlotIndex(ev);
      if found.None? {
        return Refused;
      }
      var i := found.value;
      var slot := table[i];
      if !slot.used {
        tableUsed := tableUsed + 1;
      }
      slot := WriteEntry(slot, ev, now);
      eventsIn := eventsIn + 1;
      slot, r := Retire(slot, ev, pushed);
      Store(i, slot);
    }

    /** Gives up the slot of a destroyed flow, if its final line is to be emitted. */
    method Retire(slot: Entry, ev: CtEvent, pushed: bool) returns (e: Entry, r: Outcome)
      requires slot.used
      modifies this`tableUsed, this`destroysEmitted
      ensures e == Settled(slot, ev, emitDestroy)
      ensures r == if ev.kind == Destroy && emitDestroy then Removed else Kept
      ensures tableUsed == old(tableUsed) - if e.used || old(tableUsed) == 0 then 0 else 1
      ensures destroysEmitted == old(destroysEmitted) + if r == Removed && pushed then 1 else 0
    {
      e, r := slot, Kept;
      if ev.kind == Destroy && emitDestroy {
        e := e.(alive := false);
        if pushed {
          destroysEmitted := destroysEmitted + 1;
        }
        e := e.(used := false);
        if tableUsed > 0 {
          tableUsed := tableUsed - 1;
        }
        r := Removed;
      }
    }

    /** Feeds a netlink datagram message by message and applies the events each one decodes to;
        all but those that find no slot are counted as applied. */
    method FeedAndApply(buf: seq<byte>, decode: seq<byte> -> seq<CtEvent>, now: nat, pushed: nat -> bool) returns (applied: nat)
      requires Valid()
      modifies this`tableUsed, this`eventsIn, this`destroysEmitted, table
      ensures Valid()
      ensures Slots() == RunFrom(old(Slots()), Stamped(Decoded(NetlinkWalk.Fed(buf), decode), now), emitDestroy)
      ensures table[Limit()..] == old(table[Limit()..])
      ensures applied == Taken(old(Slots()), Stamped(Decoded(NetlinkWalk.Fed(buf), decode), now), emitDestroy)
    {
      applied := 0;
      ghost var slots, beyond := Slots(), table[Limit()..];
      var fed := NetlinkWalk.FeedMessages(buf);
      var evs := DecodeAll(fed, decode);
      ghost var all := Stamped(evs, now);
      var i := 0;
      while i < |evs|
        invariant 0 <= i <= |evs| && Valid()
        invariant Slots() == RunFrom(slots, all[..i], emitDestroy) && table[Limit()..] == beyond
        invariant applied == Taken(slots, all[..i], emitDestroy)
      {
        RunOneMore(slots, all, i, emitDestroy);
        var r := ApplyEvent(evs[i], now, pushed(i));
        if r != Refused {
          applied := applied + 1;
        }
        i := i + 1;
      }
      assert all[..|evs|] == all;
    }

    /** Copies the used slots out. */
    method Snapshot() returns (flows: seq<Entry>)
      requires Valid()
      ensures flows == UsedRows(Slots())
    {
      flows := [];
      var i := 0;
      while i < maxFlows && i < FLOW_MAX
        invariant 0 <= i <= Limit() && flows == UsedRows(table[..i])
      {
        assert table[..i + 1][..i] == table[..i];
        if table[i].used {
          flows := flows + [table[i]];
        }
        i := i + 1;
      }
    }

    method Store(i: nat, e: Entry)
      requires table.Length == FLOW_MAX && i < Limit()
      modifies table
      ensures Slots() == old(Slots())[i := e]
      ensures table[Limit()..] == old(table[Limit()..])
      ensures CountUsed(table[..]) + (if old(table[i]).used then 1 else 0)
              == old(CountUsed(table[..])) + (if e.used then 1 else 0)
    {
      CountUsedUpdate(table[..], i, e);
      table[i] := e;
      assert table[..] == old(table[..])[i := e];
    }
  }

  lemma RunOneMore(slots: seq<Entry>, evs: seq<Timely>, i: nat, emitDestroy: bool)
    requires i < |evs|
    ensures RunFrom(slots, evs[..i + 1], emitDestroy)
            == Apply(RunFrom(slots, evs[..i], emitDestroy), evs[i].ev, evs[i].now, emitDestroy)
    ensures Taken(slots, evs[..i + 1], emitDestroy)
            == Taken(slots, evs[..i], emitDestroy)
               + if Report(RunFrom(slots, evs[..i], emitDestroy), evs[i].ev, emitDestroy) == Refused then 0 else 1
  {
    assert evs[..i + 1][..i] == evs[..i];
  }

  /** The events of some messages, in order. */
  function Decoded(msgs: seq<seq<byte>>, decode: seq<byte> -> seq<CtEvent>): seq<CtEvent> {
    if |msgs| == 0 then [] else Decoded(msgs[..|msgs| - 1], decode) + decode(msgs[|msgs| - 1])
  }

  function Stamped(evs: seq<CtEvent>, now: nat): (s: seq<Timely>)
    ensures |s| == |evs| && forall i :: 0 <= i < |s| ==> s[i] == Timely(evs[i], now)
  {
    seq(|evs|, i requires 0 <= i < |evs| => Timely(evs[i], now))
  }

  method DecodeAll(msgs: seq<seq<byte>>, decode: seq<byte> -> seq<CtEvent>) returns (evs: seq<CtEvent>)
    ensures evs == Decoded(msgs, decode)
  {
    evs := [];
    var i := 0;
    while i < |msgs|
      invariant 0 <= i <= |msgs| && evs == Decoded(msgs[..i], decode)
    {
      assert msgs[..i + 1][..i] == msgs[..i];
      evs := evs + decode(msgs[i]);
      i := i + 1;
    }
    assert msgs[..|msgs|] == msgs;
  }

  /** Fills a free slot, or updates one in use field by field as the source orders it. */
  method WriteEntry(e: Entry, ev: CtEvent, now: nat) returns (slot: Entry)
    ensures slot == Written(e, ev, now) && slot.used
  {
    if !e.used {
      return FromEvent(ev, now);
    }
    slot := e;
    var prev, prevMs := slot.c, slot.lastSeen;
    if slot.firstSeen == 0 {
      slot := slot.(firstSeen := now);
    }
    slot := slot.(lastSeen := now);
    if ev.id.Some? {
      slot := slot.(id := ev.id);
    }
    slot := slot.(key := ev.key, wan := ev.wan, wanPort := ev.wanPort);
    if ev.counters.Some? {
      slot := Metered(slot, ev.counters.value, prev, prevMs, now);
    }
    slot := slot.(state := ev.kind);
  }

  lemma {:induction false} NoneUsed(slots: seq<Entry>)
    requires forall i :: 0 <= i < |slots| ==> !slots[i].used
    ensures CountUsed(slots) == 0
  {
    if |slots| > 0 {
      NoneUsed(slots[..|slots| - 1]);
    }
  }
}
