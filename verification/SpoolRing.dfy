/** The spool as the agent keeps it: an array used as a ring, and the HTTP body buffer. */
module SpoolRing {
  import opened Bytes
  import opened Wrappers
  import opened Spool

  // ---- Rings ----

  /** Position i of a ring of n cells that starts at `head`. */
  function Wrap(head: nat, i: nat, n: nat): (k: nat)
    requires head < n && i <= n
    ensures k < n
  {
    if head + i < n then head + i else head + i - n
  }

  lemma WrapIsModulo(head: nat, i: nat, n: nat)
    requires head < n && i <= n
    ensures (head + i) % n == Wrap(head, i, n)
  {
    if head + i >= n {
      ModuloOnce(head + i, n);
    } else {
      ModuloNone(head + i, n);
    }
  }

  lemma ModuloNone(x: nat, n: nat)
    requires x < n
    ensures x % n == x
  {
  }

  lemma ModuloOnce(x: nat, n: nat)
    requires 0 < n <= x < 2 * n
    ensures x % n == x - n
  {
    var q := x / n;
    assert x == q * n + x % n;
    if q >= 2 {
      Monotone(2, q, n);
    } else if q <= 0 {
      Monotone(q, 0, n);
    }
  }

  lemma Monotone(a: int, b: int, n: nat)
    requires a <= b
    ensures a * n <= b * n
  {
  }

  function RingOf(cells: seq<Text>, head: nat, cnt: nat): (s: seq<Text>)
    requires cnt <= |cells| && (head < |cells| || cnt == 0)
    ensures |s| == cnt
  {
    seq(cnt, i requires 0 <= i < cnt => cells[Wrap(head, i, |cells|)])
  }

  /** Moving the head over k lines takes them off the front. */
  lemma RingAdvance(cells: seq<Text>, head: nat, cnt: nat, k: nat)
    requires head < |cells| && k <= cnt <= |cells|
    ensures (head + k) % |cells| < |cells|
    ensures RingOf(cells, (head + k) % |cells|, cnt - k) == RingOf(cells, head, cnt)[k..]
  {
    WrapIsModulo(head, k, |cells|);
  }

  /** Writing the cell after the last line adds a line. */
  lemma RingAppend(cells: seq<Text>, head: nat, cnt: nat, line: Text)
    requires head < |cells| && cnt < |cells|
    ensures RingOf(cells[Wrap(head, cnt, |cells|) := line], head, cnt + 1) == RingOf(cells, head, cnt) + [line]
  {
  }

  class Agent {
    var spoolMaxLines: nat
    var generation: nat
    var spool: array?<Text>
    var spoolCap: nat
    var spoolHead: nat
    var spoolTail: nat
    var spoolCnt: nat
    var spoolDrops: nat
    ghost var accepted: seq<Text>
    ghost var emitted: seq<nat>
    ghost var discarded: nat

    ghost predicate RingValid()
      reads this`spool, this`spoolCap, this`spoolHead, this`spoolTail, this`spoolCnt
    {
      && (spool == null ==> spoolCap == 0 && spoolCnt == 0)
      && (spool != null ==> spoolCap > 0 && spool.Length == spoolCap && spoolHead < spoolCap
                            && spoolCnt <= spoolCap && spoolTail == Wrap(spoolHead, spoolCnt, spoolCap))
    }

    /** The queued lines, oldest first. */
    ghost function Queue(): (q: seq<Text>)
      requires RingValid()
      reads this`spool, this`spoolCap, this`spoolHead, this`spoolTail, this`spoolCnt, spool
      ensures |q| == spoolCnt
    {
      if spool == null then [] else RingOf(spool[..], spoolHead, spoolCnt)
    }

    /** The spool that the ring stands for. */
    ghost function View(): Spool
      requires RingValid()
      reads this, spool
    {
      Spool(spoolCap, spoolMaxLines, generation, Queue(), accepted, emitted, spoolDrops, discarded)
    }

    ghost predicate Valid()
      reads this, spool
    {
      RingValid() && Sound(View())
    }

    /** The agent is created only if the first allocation succeeds. */
    constructor (maxLines: nat)
      requires 0 < maxLines
      ensures Valid() && View() == Created(maxLines)
      ensures fresh(spool)
    {
      spoolMaxLines, generation := maxLines, 0;
      spool := new Text[maxLines](_ => []);
      spoolCap, spoolHead, spoolTail, spoolCnt, spoolDrops := maxLines, 0, 0, 0, 0;
      accepted, emitted, discarded := [], [], 0;
    }

    /** Takes k lines off the front of the ring. */
    method Advance(k: nat)
      requires RingValid() && spool != null && k <= spoolCnt
      modifies this`spoolHead, this`spoolCnt
      ensures RingValid() && Queue() == old(Queue())[k..]
    {
      RingAdvance(spool[..], spoolHead, spoolCnt, k);
      WrapIsModulo(spoolHead, k, spoolCap);
      spoolHead := (spoolHead + k) % spoolCap;
      spoolCnt := spoolCnt - k;
    }

    /** Writes a line at the tail of a ring that has room. */
    method Append(line: Text)
      requires RingValid() && spool != null && spoolCnt < spoolCap
      modifies this`spoolTail, this`spoolCnt, spool
      ensures RingValid() && Queue() == old(Queue()) + [line]
    {
      RingAppend(spool[..], spoolHead, spoolCnt, line);
      ghost var cells := spool[..];
      spool[spoolTail] := line;
      assert spool[..] == cells[spoolTail := line];
      WrapIsModulo(spoolTail, 1, spoolCap);
      spoolTail := (spoolTail + 1) % spoolCap;
      spoolCnt := spoolCnt + 1;
    }

    method PushLine(line: Text) returns (ok: bool)
      requires Valid()
      modifies this, spool
      ensures Valid() && View() == Step(old(View()), Push(line))
      ensures ok <==> old(spoolCap) != 0
      ensures spool == old(spool)
    {
      if spool == null || spoolCap == 0 {
        return false;
      }
      var n := |line|;
      if n >= LINE_MAX {
        n := LINE_MAX - 1;
      }
      var kept: Text := line[..n];
      assert kept == Truncated(line);
      ghost var s := View();
      PushedSound(s, line);
      if spoolCnt >= spoolCap {
        Advance(1);
        spoolDrops := spoolDrops + 1;
      }
      Append(kept);
      accepted := accepted + [kept];
      assert View() == Pushed(s, line);
      return true;
    }

    /** The first k queued lines leave as emitted. */
    method Consume(k: nat)
      requires RingValid() && spool != null && k <= spoolCnt <= |accepted|
      modifies this`spoolHead, this`spoolCnt, this`emitted
      ensures RingValid() && View() == Emitted(old(View()), k)
    {
      ghost var s := View();
      assert |s.queue| == spoolCnt;
      emitted := emitted + Positions(|accepted| - spoolCnt, k);
      Advance(k);
      assert View() == Emitted(s, k);
    }

    /** Writes the queued lines out one by one. The `printed`-th write fails if the queue is that
        long, and the final flush fails unless `flushed`; lines already written stay consumed. */
    method FlushLines(printed: nat, flushed: bool) returns (written: Option<nat>, out: seq<Text>)
      requires Valid()
      modifies this`spoolHead, this`spoolCnt, this`emitted
      ensures Valid() && View() == Step(old(View()), Flush(printed))
      ensures out == old(Queue())[..Min(printed, old(spoolCnt))]
      ensures written == if spool == null || printed < old(spoolCnt) || !flushed then None else Some(old(spoolCnt))
    {
      StepSound(View(), Flush(printed));
      out := [];
      if spool == null {
        NoneEmitted(View());
        return None, out;
      }
      var count := spoolCnt;
      out := WriteLines(printed);
      if spoolCnt > 0 || !flushed {
        return None, out;
      }
      return Some(count), out;
    }

    /** The writing loop, up to the first write that fails. */
    method WriteLines(printed: nat) returns (out: seq<Text>)
      requires RingValid() && spool != null && spoolCnt <= |accepted|
      modifies this`spoolHead, this`spoolCnt, this`emitted
      ensures RingValid() && View() == Emitted(old(View()), Min(printed, old(spoolCnt)))
      ensures out == old(Queue())[..Min(printed, old(spoolCnt))]
      ensures spoolCnt == old(spoolCnt) - Min(printed, old(spoolCnt))
    {
      ghost var s, k := View(), 0;
      out := [];
      NoneEmitted(s);
      while spoolCnt > 0 && |out| < printed
        invariant 0 <= k == |out| <= printed && spoolCnt == |s.queue| - k && out == s.queue[..k]
        invariant RingValid() && View() == Emitted(s, k)
        decreases spoolCnt
      {
        var line := TakeOldest();
        EmittedOneMore(s, k);
        out := out + [line];
        k := k + 1;
      }
    }

    method TakeOldest() returns (line: Text)
      requires RingValid() && spool != null && 0 < spoolCnt <= |accepted|
      modifies this`spoolHead, this`spoolCnt, this`emitted
      ensures RingValid() && View() == Emitted(old(View()), 1) && line == old(View()).queue[0]
      ensures spoolCnt == old(spoolCnt) - 1
    {
      line := spool[spoolHead];
      assert line == Queue()[0];
      Consume(1);
    }

    method LineAt(head: nat, i: nat) returns (line: Text)
      requires RingValid() && head == spoolHead && i < spoolCnt
      ensures line == Queue()[i]
    {
      WrapIsModulo(head, i, spoolCap);
      line := spool[(head + i) % spoolCap];
    }

    /** Copies queued lines into the request body until it is full. */
    method FillBody(body: array<byte>) returns (n: nat, bodyLen: nat)
      requires Valid() && spoolCnt > 0 && body.Length == BODY_MAX && body as object != spool && body as object != this
      modifies body
      ensures n == BatchSize(old(Queue()), 0, 0) && bodyLen < body.Length
      ensures body[..bodyLen] == Body(old(Queue())[..n])
      ensures RingValid() && View() == old(View())
    {
      n, bodyLen := 0, 0;
      var head := spoolHead;
      ghost var q := Queue();
      QueueShort(View());
      while n < spoolCnt && bodyLen + LINE_MAX < body.Length
        invariant 0 <= n <= spoolCnt && bodyLen < body.Length
        invariant body[..bodyLen] == Body(q[..n])
        invariant BatchSize(q, 0, 0) == BatchSize(q, n, bodyLen)
      {
        var line := LineAt(head, n);
        if bodyLen + |line| + 2 >= body.Length {
          break;
        }
        OneMoreLine(q, n, bodyLen);
        bodyLen := CopyLine(body, bodyLen, line);
        n := n + 1;
      }
    }

    /** Posts one batch and drops its lines only if the post succeeds. */
    method EmitHttp(postOk: bool) returns (sent: Option<nat>, posted: seq<byte>)
      requires Valid()
      modifies this
      ensures Valid() && spool == old(spool)
      ensures View() == Step(old(View()), Post(postOk))
      ensures posted == Body(old(Queue())[..BatchSize(old(Queue()), 0, 0)])
      ensures sent == if postOk || old(spoolCnt) == 0 then Some(BatchSize(old(Queue()), 0, 0)) else None
    {
      ghost var s := View();
      if spoolCnt == 0 {
        return Some(0), [];
      }
      var body := new byte[BODY_MAX];
      var n, bodyLen := FillBody(body);
      posted := body[..bodyLen];
      if !postOk {
        return None, posted;
      }
      DropPosted(n);
      return Some(n), posted;
    }

    method DropPosted(n: nat)
      requires Valid() && spool != null && n == BatchSize(Queue(), 0, 0)
      modifies this`spoolHead, this`spoolCnt, this`emitted
      ensures Valid() && View() == Step(old(View()), Post(true))
    {
      StepSound(View(), Post(true));
      Consume(n);
    }

    /** Frees the ring, and allocates one of another size if memory can be had; no size is the
        default one. */
    method EnsureSpool(lines: nat, gotMemory: bool) returns (ok: bool)
      requires RingValid()
      modifies this`spool, this`spoolCap, this`spoolHead, this`spoolTail, this`spoolCnt, this`discarded
      ensures RingValid() && (spool == old(spool) || spool == null || fresh(spool))
      ensures ok <==> WantedLines(lines) == old(spoolCap) || gotMemory
      ensures View() == if WantedLines(lines) == old(spoolCap) then old(View())
                        else old(View()).(cap := if gotMemory then WantedLines(lines) else 0, queue := [],
                                          discarded := old(discarded) + old(spoolCnt))
    {
      var cap := lines;
      if cap == 0 {
        cap := DEFAULT_LINES;
      }
      if spool != null && spoolCap == cap {
        return true;
      }
      discarded := discarded + spoolCnt;
      spool := null;
      spoolCap, spoolHead, spoolTail, spoolCnt := 0, 0, 0, 0;
      if !gotMemory {
        return false;
      }
      spool := new Text[cap](_ => []);
      spoolCap := cap;
      return true;
    }

    /** Resizes the ring when the wanted size changes, and takes over a valid configuration. A
        resize frees the old ring first: its lines are gone even if the new one cannot be had. */
    method ApplyConfig(lines: nat, valid: bool, gotMemory: bool) returns (ok: bool)
      requires Valid()
      modifies this
      ensures Valid() && View() == Step(old(View()), Configure(lines, valid, gotMemory))
      ensures spool == old(spool) || spool == null || fresh(spool)
      ensures ok <==> valid && WantedLines(lines) <= HARD_CAP && (gotMemory || WantedLines(lines) == old(spoolCap))
    {
      StepSound(View(), Configure(lines, valid, gotMemory));
      ok := Reconfigure(lines, valid, gotMemory);
    }

    method Reconfigure(lines: nat, valid: bool, gotMemory: bool) returns (ok: bool)
      requires RingValid() && spoolCnt <= |accepted|
      modifies this
      ensures RingValid() && View() == Step(old(View()), Configure(lines, valid, gotMemory))
      ensures spool == old(spool) || spool == null || fresh(spool)
      ensures ok <==> valid && WantedLines(lines) <= HARD_CAP && (gotMemory || WantedLines(lines) == old(spoolCap))
    {
      var want := if lines == 0 then DEFAULT_LINES else lines;
      if !valid || want > HARD_CAP {
        return false;
      }
      if want != spoolCap {
        ok := EnsureSpool(want, gotMemory);
        if !ok {
          return false;
        }
      }
      TakeOver(want);
      return true;
    }

    method TakeOver(lines: nat)
      requires RingValid()
      modifies this`spoolMaxLines, this`generation
      ensures RingValid() && View() == old(View()).(maxLines := lines, generation := old(generation) + 1)
    {
      spoolMaxLines, generation := lines, generation + 1;
    }
  }

  /** The batch loop takes line n, and the body grows by that line and a newline. */
  lemma OneMoreLine(queue: seq<Text>, n: nat, len: nat)
    requires n < |queue| && len + LINE_MAX < BODY_MAX && len + |queue[n]| + 2 < BODY_MAX
    ensures BatchSize(queue, n, len) == BatchSize(queue, n + 1, len + |queue[n]| + 1)
    ensures Body(queue[..n + 1]) == Body(queue[..n]) + queue[n] + [NEWLINE]
  {
    assert queue[..n + 1][..n] == queue[..n];
  }

  lemma NoneEmitted(s: Spool)
    requires |s.queue| <= |s.accepted|
    ensures Emitted(s, 0) == s
  {
    assert s.queue[0..] == s.queue;
    assert s.emitted + Positions(|s.accepted| - |s.queue|, 0) == s.emitted;
  }

  lemma EmittedOneMore(s: Spool, n: nat)
    requires n < |s.queue| <= |s.accepted|
    ensures Emitted(Emitted(s, n), 1) == Emitted(s, n + 1)
    ensures s.queue[..n] + [Emitted(s, n).queue[0]] == s.queue[..n + 1]
  {
    var from := |s.accepted| - |s.queue|;
    assert s.queue[n..][1..] == s.queue[n + 1..];
    assert Positions(from, n + 1) == Positions(from, n) + Positions(from + n, 1);
    assert s.emitted + Positions(from, n) + Positions(from + n, 1) == s.emitted + (Positions(from, n) + Positions(from + n, 1));
  }

  /** Appends a line and a newline to the bytes in the buffer. */
  method CopyLine(body: array<byte>, at: nat, line: Text) returns (end: nat)
    requires at + |line| + 1 <= body.Length
    modifies body
    ensures end == at + |line| + 1
    ensures body[..end] == old(body[..at]) + line + [NEWLINE]
  {
    var k := 0;
    while k < |line|
      invariant 0 <= k <= |line|
      invariant body[..at + k] == old(body[..at]) + line[..k]
    {
      body[at + k] := line[k];
      k := k + 1;
    }
    body[at + k] := NEWLINE;
    end := at + k + 1;
  }
}
