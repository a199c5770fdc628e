/** The evict-smallest row table that the TCP statistics use twice: once keyed by
    remote address (256 rows) and once keyed by network prefix (128 rows). */
module CounterTable {

  datatype Counters = Counters(pkts: nat, bytes: nat, syn: nat, fin: nat, rst: nat, retrans: nat) {
    function Plus(d: Counters): Counters {
      Counters(pkts + d.pkts, bytes + d.bytes, syn + d.syn, fin + d.fin, rst + d.rst, retrans + d.retrans)
    }
  }

  const NoCounts := Counters(0, 0, 0, 0, 0, 0)

  /** One table row; `extra` is what only one of the two tables keeps. */
  datatype Row<K, X> = Row(key: K, c: Counters, extra: X)

  ghost predicate DistinctKeys<K, X>(rows: seq<Row<K, X>>) {
    forall i, j :: 0 <= i < j < |rows| ==> rows[i].key != rows[j].key
  }

  ghost predicate NoIdleRow<K, X>(rows: seq<Row<K, X>>) {
    forall i :: 0 <= i < |rows| ==> 1 <= rows[i].c.pkts
  }

  // ---- Where a key's row is, or is put ----

  /** The first row with this key, or the number of rows. */
  function Find<K(==), X>(rows: seq<Row<K, X>>, key: K): (i: nat)
    ensures i <= |rows|
    ensures i < |rows| ==> rows[i].key == key
    ensures forall j :: 0 <= j < i ==> rows[j].key != key
  {
    if |rows| == 0 then 0
    else
      var i := Find(rows[..|rows| - 1], key);
      if i < |rows| - 1 then i
      else if rows[|rows| - 1].key == key then |rows| - 1
      else |rows|
  }

  /** The first row of least packet count among the first n. */
  function Smallest<K, X>(rows: seq<Row<K, X>>, n: nat): (best: nat)
    requires 1 <= n <= |rows|
    ensures best < n
    ensures forall j :: 0 <= j < n ==> rows[best].c.pkts <= rows[j].c.pkts
    ensures forall j :: 0 <= j < best ==> rows[best].c.pkts < rows[j].c.pkts
  {
    if n == 1 then 0
    else
      var best := Smallest(rows, n - 1);
      if rows[n - 1].c.pkts < rows[best].c.pkts then n - 1 else best
  }

  /** The table after making room for a key, the key's row, and the evicted row if any. */
  datatype Placement<K, X> = Placement(rows: seq<Row<K, X>>, at: nat, evicted: seq<Row<K, X>>)

  function Place<K(==), X>(rows: seq<Row<K, X>>, key: K, cap: nat, blank: X): (p: Placement<K, X>)
    requires 0 < cap && |rows| <= cap
    ensures p.at < |p.rows| <= cap && p.rows[p.at].key == key
  {
    var i := Find(rows, key);
    var newRow := Row(key, NoCounts, blank);
    if i < |rows| then Placement(rows, i, [])
    else if |rows| < cap then Placement(rows + [newRow], |rows|, [])
    else
      var v := Smallest(rows, |rows|);
      Placement(rows[v := newRow], v, [rows[v]])
  }

  /** What placing a key promises: keys stay distinct, the key's old row is used when there is
      one, and otherwise the row is blank and only a full table loses a row, one that no other
      row undercuts. */
  lemma PlaceKeeps<K, X>(rows: seq<Row<K, X>>, key: K, cap: nat, blank: X)
    requires 0 < cap && |rows| <= cap && DistinctKeys(rows)
    ensures var p := Place(rows, key, cap, blank);
            && DistinctKeys(p.rows)
            && ((exists i :: 0 <= i < |rows| && rows[i].key == key) ==>
                  p.rows == rows && p.evicted == [])
            && ((forall i :: 0 <= i < |rows| ==> rows[i].key != key) ==>
                  && p.rows[p.at] == Row(key, NoCounts, blank)
                  && (|rows| < cap <==> p.evicted == [])
                  && (|rows| == cap ==>
                        && p.evicted == [rows[p.at]]
                        && forall j :: 0 <= j < |rows| ==> rows[p.at].c.pkts <= rows[j].c.pkts))
            && forall j :: 0 <= j < |rows| && j != p.at ==> p.rows[j] == rows[j]
  {
  }

  /** The in-place search, append and eviction over the fixed-size row array. */
  method PlaceRow<K(==), X>(rows: array<Row<K, X>>, count: nat, key: K, blank: X)
    returns (at: nat, count': nat, ghost evicted: seq<Row<K, X>>)
    requires 0 < rows.Length && count <= rows.Length
    modifies rows
    ensures at < count' <= rows.Length
    ensures Place(old(rows[..count]), key, rows.Length, blank) == Placement(rows[..count'], at, evicted)
  {
    ghost var before := rows[..count];
    var i := 0;
    while i < count
      invariant 0 <= i <= count
      invariant forall j :: 0 <= j < i ==> rows[j].key != key
      invariant rows[..count] == before
    {
      if rows[i].key == key {
        assert before[i].key == key;
        assert Find(before, key) == i;
        return i, count, [];
      }
      i := i + 1;
    }
    assert Find(before, key) == |before|;
    if count < rows.Length {
      rows[count] := Row(key, NoCounts, blank);
      assert rows[..count + 1] == before + [Row(key, NoCounts, blank)];
      return count, count + 1, [];
    }
    var best := 0;
    i := 1;
    while i < rows.Length
      invariant 1 <= i <= rows.Length
      invariant rows[..count] == before
      invariant best == Smallest(before, i)
    {
      if rows[i].c.pkts < rows[best].c.pkts {
        best := i;
      }
      i := i + 1;
    }
    evicted := [rows[best]];
    rows[best] := Row(key, NoCounts, blank);
    assert rows[..count] == before[best := Row(key, NoCounts, blank)];
    at, count' := best, count;
  }

  // ---- Sums over the rows whose key is selected ----

  function SumWhere<K, X>(rows: seq<Row<K, X>>, f: K -> bool, w: Row<K, X> -> int): int {
    if |rows| == 0 then 0
    else
      var r := rows[|rows| - 1];
      SumWhere(rows[..|rows| - 1], f, w) + Part(r, f, w)
  }

  function Part<K, X>(r: Row<K, X>, f: K -> bool, w: Row<K, X> -> int): int {
    if f(r.key) then w(r) else 0
  }

  lemma {:induction false} SumAppend<K, X>(rows: seq<Row<K, X>>, more: seq<Row<K, X>>, f: K -> bool, w: Row<K, X> -> int)
    ensures SumWhere(rows + more, f, w) == SumWhere(rows, f, w) + SumWhere(more, f, w)
  {
    if |more| == 0 {
      assert rows + more == rows;
    } else {
      assert (rows + more)[..|rows + more| - 1] == rows + more[..|more| - 1];
      SumAppend(rows, more[..|more| - 1], f, w);
    }
  }

  lemma {:induction false} SumUpdate<K, X>(rows: seq<Row<K, X>>, i: nat, r: Row<K, X>, f: K -> bool, w: Row<K, X> -> int)
    requires i < |rows|
    ensures SumWhere(rows[i := r], f, w) + Part(rows[i], f, w) == SumWhere(rows, f, w) + Part(r, f, w)
  {
    var n := |rows| - 1;
    if i < n {
      assert rows[i := r][..n] == rows[..n][i := r];
      SumUpdate(rows[..n], i, r, f, w);
    } else {
      assert rows[i := r][..n] == rows[..n];
    }
  }

  /** Only one row can hold a given key, so a sum over that key is that row's weight. */
  lemma {:induction false} SumOfOneKey<K, X>(rows: seq<Row<K, X>>, i: nat, f: K -> bool, w: Row<K, X> -> int)
    requires i < |rows| && DistinctKeys(rows)
    requires forall k :: f(k) <==> k == rows[i].key
    ensures SumWhere(rows, f, w) == w(rows[i])
  {
    var n := |rows| - 1;
    if i < n {
      SumOfOneKey(rows[..n], i, f, w);
    } else {
      SumOfNoKey(rows[..n], f, w);
    }
  }

  lemma {:induction false} SumOfNoKey<K, X>(rows: seq<Row<K, X>>, f: K -> bool, w: Row<K, X> -> int)
    requires forall i :: 0 <= i < |rows| ==> !f(rows[i].key)
    ensures SumWhere(rows, f, w) == 0
  {
    if |rows| > 0 {
      SumOfNoKey(rows[..|rows| - 1], f, w);
    }
  }

  /** Placing a key and then rewriting its row changes a sum over live and evicted rows by
      exactly what the rewritten row weighs more than the placed one. */
  lemma SumPlaced<K, X>(rows: seq<Row<K, X>>, dead: seq<Row<K, X>>, key: K, cap: nat, blank: X,
                        r: Row<K, X>, f: K -> bool, w: Row<K, X> -> int)
    requires 0 < cap && |rows| <= cap && r.key == key
    requires w(Row(key, NoCounts, blank)) == 0
    ensures var p := Place(rows, key, cap, blank);
            SumWhere(p.rows[p.at := r], f, w) + SumWhere(dead + p.evicted, f, w) + Part(p.rows[p.at], f, w)
              == SumWhere(rows, f, w) + SumWhere(dead, f, w) + Part(r, f, w)
  {
    var p := Place(rows, key, cap, blank);
    var newRow := Row(key, NoCounts, blank);
    SumUpdate(p.rows, p.at, r, f, w);
    SumAppend(dead, p.evicted, f, w);
    var i := Find(rows, key);
    if i == |rows| {
      if |rows| < cap {
        SumAppend(rows, [newRow], f, w);
        SumSingle(newRow, f, w);
      } else {
        SumUpdate(rows, p.at, newRow, f, w);
        SumSingle(rows[p.at], f, w);
      }
    }
  }

  lemma SumSingle<K, X>(r: Row<K, X>, f: K -> bool, w: Row<K, X> -> int)
    ensures SumWhere([r], f, w) == Part(r, f, w)
  {
    assert [r][..0] == [];
    assert SumWhere([r][..0], f, w) == 0;
  }

  /** With no negative weight, a sum is at least the weight of any one selected row. */
  lemma {:induction false} SumAtLeast<K, X>(rows: seq<Row<K, X>>, i: nat, f: K -> bool, w: Row<K, X> -> int)
    requires i < |rows| && f(rows[i].key)
    requires forall r :: 0 <= w(r)
    ensures SumWhere(rows, f, w) >= w(rows[i])
  {
    var n := |rows| - 1;
    if i < n {
      SumAtLeast(rows[..n], i, f, w);
    } else {
      SumNotNegative(rows[..n], f, w);
    }
  }

  lemma {:induction false} SumNotNegative<K, X>(rows: seq<Row<K, X>>, f: K -> bool, w: Row<K, X> -> int)
    requires forall r :: 0 <= w(r)
    ensures SumWhere(rows, f, w) >= 0
  {
    if |rows| > 0 {
      SumNotNegative(rows[..|rows| - 1], f, w);
    }
  }
}
