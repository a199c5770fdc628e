/** The 64-entry cache of recently seen SYN four-tuples, a ring that is overwritten in order. */
module SynCache {

  const SLOTS: nat := 64

  /** Source and destination address, source and destination port. */
  datatype Tuple = Tuple(sip: nat, dip: nat, sport: nat, dport: nat)

  datatype Slot = Slot(used: bool, tuple: Tuple, seqNo: nat)

  const EmptySlot := Slot(false, Tuple(0, 0, 0, 0), 0)

  // ---- What the cache answers, without a ring ----

  /** The last 64 tuples that missed. */
  function Window(misses: seq<Tuple>): seq<Tuple> {
    if |misses| <= SLOTS then misses else misses[|misses| - SLOTS..]
  }

  function Noted(misses: seq<Tuple>, t: Tuple): seq<Tuple> {
    if t in Window(misses) then misses else misses + [t]
  }

  /** The tuples that missed in a run of queries since a reset. */
  function Misses(queries: seq<Tuple>): seq<Tuple> {
    if |queries| == 0 then [] else Noted(Misses(queries[..|queries| - 1]), queries[|queries| - 1])
  }

  ghost predicate Distinct(s: seq<Tuple>) {
    forall i, j :: 0 <= i < j < |s| ==> s[i] != s[j]
  }

  /** A miss enters the window, and pushes out the oldest tuple once there are 64. */
  lemma WindowSlides(misses: seq<Tuple>, t: Tuple)
    ensures Window(misses + [t]) == (if |misses| < SLOTS then Window(misses) else Window(misses)[1..]) + [t]
  {
  }

  lemma StillDistinct(window: seq<Tuple>, t: Tuple)
    requires Distinct(window) && t !in window
    ensures Distinct(window + [t]) && (|window| > 0 ==> Distinct(window[1..] + [t]))
  {
  }

  /** In every run: the cached tuples are pairwise distinct, and a cached tuple was queried before. */
  lemma {:induction false} WindowOfRun(queries: seq<Tuple>)
    ensures Distinct(Window(Misses(queries)))
    ensures forall t :: t in Misses(queries) ==> t in queries
  {
    if |queries| > 0 {
      var before, t := queries[..|queries| - 1], queries[|queries| - 1];
      WindowOfRun(before);
      assert queries == before + [t];
      var m := Misses(before);
      if t !in Window(m) {
        WindowSlides(m, t);
        StillDistinct(Window(m), t);
      }
    }
  }

  lemma {:induction false} WindowWhileSmall(queries: seq<Tuple>, t: Tuple)
    requires |Misses(queries)| <= SLOTS
    ensures t in Window(Misses(queries)) <==> t in queries
  {
    if |queries| > 0 {
      var before := queries[..|queries| - 1];
      assert |Misses(before)| <= |Misses(queries)|;
      WindowWhileSmall(before, t);
      assert queries == before + [queries[|queries| - 1]];
    }
  }

  /** A miss is none of the 64 misses before it. */
  ghost predicate FarApart(misses: seq<Tuple>) {
    forall i, j :: 0 <= i < j < |misses| && j - i <= SLOTS ==> misses[i] != misses[j]
  }

  lemma RecentInWindow(misses: seq<Tuple>, i: nat)
    requires i < |misses| && |misses| - i <= SLOTS
    ensures misses[i] in Window(misses)
  {
    var w := Window(misses);
    assert w[i - (|misses| - |w|)] == misses[i];
  }

  lemma {:induction false} MissesFarApart(queries: seq<Tuple>)
    ensures FarApart(Misses(queries))
  {
    if |queries| > 0 {
      var m, t := Misses(queries[..|queries| - 1]), queries[|queries| - 1];
      MissesFarApart(queries[..|queries| - 1]);
      if t !in Window(m) {
        forall i | 0 <= i < |m| && |m| - i <= SLOTS
          ensures m[i] != t
        {
          RecentInWindow(m, i);
        }
      }
    }
  }

  /** The tuple that missed just before the window began was queried, and is forgotten. */
  lemma OneForgotten(queries: seq<Tuple>)
    requires |Misses(queries)| > SLOTS
    ensures var m := Misses(queries);
            var t := m[|m| - SLOTS - 1];
            t in queries && t !in Window(m)
  {
    var m := Misses(queries);
    WindowOfRun(queries);
    MissesFarApart(queries);
    assert m[|m| - SLOTS - 1] in m;
  }

  // How many different tuples a run queries.

  function Elements(s: seq<Tuple>): (e: set<Tuple>)
    ensures forall t :: t in e <==> t in s
  {
    set t | t in s
  }

  lemma {:induction false} SizeOfElements(s: seq<Tuple>)
    ensures |Elements(s)| <= |s|
    ensures Distinct(s) ==> |Elements(s)| == |s|
  {
    if |s| > 0 {
      var before, last := s[..|s| - 1], s[|s| - 1];
      SizeOfElements(before);
      assert s == before + [last];
      assert Elements(s) == Elements(before) + {last};
    }
  }

  lemma {:induction false} SubsetSize(a: set<Tuple>, b: set<Tuple>)
    requires a <= b
    ensures |a| <= |b|
  {
    if x :| x in a {
      SubsetSize(a - {x}, b - {x});
    }
  }

  /** No more than 64 tuples miss exactly when no more than 64 different ones are queried. */
  lemma FewMissesIff(queries: seq<Tuple>)
    ensures |Misses(queries)| <= 64 <==> |Elements(queries)| <= 64
  {
    var m := Misses(queries);
    if |m| <= SLOTS {
      forall t
        ensures t in m <==> t in queries
      {
        WindowWhileSmall(queries, t);
      }
      assert Elements(queries) == Elements(m);
      SizeOfElements(m);
    } else {
      WindowOfRun(queries);
      MissesFarApart(queries);
      var first := m[..SLOTS + 1];
      assert Distinct(first);
      SizeOfElements(first);
      assert forall t :: t in first ==> t in m;
      SubsetSize(Elements(first), Elements(queries));
    }
  }

  /** A tuple is flagged exactly when the run queried it before, for all tuples, if and only if
      the run queried no more than 64 different ones. */
  lemma ExactWhileSmall(queries: seq<Tuple>)
    ensures (forall t :: t in Window(Misses(queries)) <==> t in queries) <==> |Elements(queries)| <= 64
  {
    FewMissesIff(queries);
    if |Misses(queries)| <= SLOTS {
      forall t
        ensures t in Window(Misses(queries)) <==> t in queries
      {
        WindowWhileSmall(queries, t);
      }
    } else {
      OneForgotten(queries);
    }
  }

  // ---- The ring ----

  /** The ring shows the window: a tuple that missed as number m is in slot m % 64 until 64 more
      have missed, and slots not yet reached are unused. */
  ghost predicate Shows(slots: seq<Slot>, next: nat, misses: seq<Tuple>) {
    && |slots| == SLOTS
    && next == |misses| % SLOTS
    && (forall m :: 0 <= m < |misses| && |misses| - SLOTS <= m ==>
          slots[m % SLOTS].used && slots[m % SLOTS].tuple == misses[m])
    && (forall k :: |misses| <= k < SLOTS ==> !slots[k].used)
  }

  /** Every used slot holds a tuple of the window. */
  lemma UsedSlotInWindow(slots: seq<Slot>, next: nat, misses: seq<Tuple>, k: nat)
    requires Shows(slots, next, misses) && k < SLOTS && slots[k].used
    ensures slots[k].tuple in Window(misses)
  {
    var n := |misses|;
    assert k < n;
    var m := n - 1 - (n - 1 - k) % SLOTS;
    assert m % SLOTS == k && 0 <= m < n && n - SLOTS <= m;
    assert slots[m % SLOTS].tuple == misses[m];
    if n > SLOTS {
      assert Window(misses)[m - (n - SLOTS)] == misses[m];
    }
  }

  lemma WindowInUsedSlot(slots: seq<Slot>, next: nat, misses: seq<Tuple>, t: Tuple) returns (k: nat)
    requires Shows(slots, next, misses) && t in Window(misses)
    ensures k < SLOTS && slots[k].used && slots[k].tuple == t
  {
    var j :| 0 <= j < |Window(misses)| && Window(misses)[j] == t;
    var m := if |misses| <= SLOTS then j else |misses| - SLOTS + j;
    assert misses[m] == t;
    k := m % SLOTS;
  }

  lemma ShowsNoted(slots: seq<Slot>, next: nat, misses: seq<Tuple>, t: Tuple, seqNo: nat)
    requires Shows(slots, next, misses)
    ensures Shows(slots[next := Slot(true, t, seqNo)], (next + 1) % SLOTS, misses + [t])
  {
    var n := |misses|;
    var slots' := slots[next := Slot(true, t, seqNo)];
    NextSlot(n);
    forall m | 0 <= m < n + 1 && n + 1 - SLOTS <= m
      ensures slots'[m % SLOTS].used && slots'[m % SLOTS].tuple == (misses + [t])[m]
    {
      if m < n {
        OtherSlot(m, n);
      }
    }
  }

  lemma NextSlot(n: nat)
    ensures (n % SLOTS + 1) % SLOTS == (n + 1) % SLOTS
  {
  }

  lemma OtherSlot(m: nat, n: nat)
    requires m < n < m + SLOTS
    ensures m % SLOTS != n % SLOTS
  {
  }

  /** The cache that the TCP statistics keep inline: `flows[64]` and `flow_i`. */
  class Cache {
    const flows: array<Slot>
    var flowI: nat
    ghost var misses: seq<Tuple>

    ghost predicate Valid()
      reads this, flows
    {
      Shows(flows[..], flowI, misses)
    }

    constructor ()
      ensures Valid() && misses == [] && fresh(flows)
    {
      flows := new Slot[SLOTS](_ => EmptySlot);
      flowI := 0;
      misses := [];
    }

    method Clear()
      requires flows.Length == SLOTS
      modifies this, flows
      ensures Valid() && misses == []
    {
      var i := 0;
      while i < flows.Length
        invariant 0 <= i <= flows.Length
        invariant forall k :: 0 <= k < i ==> flows[k] == EmptySlot
      {
        flows[i] := EmptySlot;
        i := i + 1;
      }
      flowI := 0;
      misses := [];
    }

    /** Flags a SYN whose tuple is cached; notes it otherwise, in place of the oldest. */
    method IsRetrans(t: Tuple, seqNo: nat) returns (retrans: bool)
      requires Valid()
      modifies this, flows
      ensures Valid()
      ensures retrans <==> t in Window(old(misses))
      ensures misses == Noted(old(misses), t)
    {
      var i := 0;
      while i < flows.Length
        invariant 0 <= i <= flows.Length
        invariant Valid() && misses == old(misses) && flows[..] == old(flows[..])
        invariant forall k :: 0 <= k < i ==> !(flows[k].used && flows[k].tuple == t)
      {
        if flows[i].used && flows[i].tuple == t {
          UsedSlotInWindow(flows[..], flowI, misses, i);
          flows[i] := flows[i].(seqNo := seqNo);
          return true;
        }
        i := i + 1;
      }
      if t in Window(misses) {
        var k := WindowInUsedSlot(flows[..], flowI, misses, t);
        assert false;
      }
      ShowsNoted(flows[..], flowI, misses, t, seqNo);
      flows[flowI] := Slot(true, t, seqNo);
      flowI := (flowI + 1) % SLOTS;
      misses := misses + [t];
      assert flows[..] == old(flows[..])[old(flowI) := Slot(true, t, seqNo)];
      return false;
    }
  }
}
