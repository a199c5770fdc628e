/** The agent's spool: a drop-oldest ring of output lines, resized on reconfiguration, drained to
    a file or in bounded HTTP batches. This file says what it does to the sequence of queued lines. */
module Spool {
  import opened Bytes

  const LINE_MAX: nat := 768
  const BODY_MAX: nat := 8 * LINE_MAX
  const DEFAULT_LINES: nat := 256
  const HARD_CAP: nat := 1024
  const NEWLINE: byte := 10

  /** A C string: its bytes up to the terminator. */
  type Text = s: seq<byte> | 0 !in s

  function Truncated(line: Text): (t: Text)
    ensures |t| < LINE_MAX
  {
    if |line| >= LINE_MAX then line[..LINE_MAX - 1] else line
  }

  /** Ring contents, and the history they come from: every accepted line in order, the positions
      of those that were emitted, and how many were dropped or discarded by a resize. */
  datatype Spool = Spool(cap: nat, maxLines: nat, generation: nat, queue: seq<Text>,
                         accepted: seq<Text>, emitted: seq<nat>, dropped: nat, discarded: nat)

  function Created(maxLines: nat): Spool {
    Spool(maxLines, maxLines, 0, [], [], [], 0, 0)
  }

  /** The positions of the queued lines among the accepted ones. */
  function Positions(from: nat, n: nat): (s: seq<nat>)
    ensures |s| == n && forall i :: 0 <= i < n ==> s[i] == from + i
  {
    seq(n, i => from + i)
  }

  /** The first n queued lines leave the queue as emitted. */
  function Emitted(s: Spool, n: nat): Spool
    requires n <= |s.queue| <= |s.accepted|
  {
    s.(queue := s.queue[n..], emitted := s.emitted + Positions(|s.accepted| - |s.queue|, n))
  }

  function Pushed(s: Spool, line: Text): Spool {
    if s.cap == 0 then s
    else if |s.queue| < s.cap then s.(queue := s.queue + [Truncated(line)], accepted := s.accepted + [Truncated(line)])
    else s.(queue := s.queue[1..] + [Truncated(line)], accepted := s.accepted + [Truncated(line)], dropped := s.dropped + 1)
  }

  // ---- HTTP batches ----

  /** How many lines the batch loop takes, from line i on with `len` bytes already in the body. */
  function BatchSize(queue: seq<Text>, i: nat, len: nat): (n: nat)
    requires i <= |queue|
    ensures i <= n <= |queue|
    decreases |queue| - i
  {
    if i == |queue| || len + LINE_MAX >= BODY_MAX || len + |queue[i]| + 2 >= BODY_MAX then i
    else BatchSize(queue, i + 1, len + |queue[i]| + 1)
  }

  /** The lines, each followed by a newline. */
  function Body(lines: seq<Text>): seq<byte> {
    if |lines| == 0 then [] else Body(lines[..|lines| - 1]) + lines[|lines| - 1] + [10]
  }

  ghost predicate Short(queue: seq<Text>) {
    forall i :: 0 <= i < |queue| ==> |queue[i]| < LINE_MAX
  }

  lemma {:induction false} BatchFrom(queue: seq<Text>, i: nat)
    requires i <= |queue| && Short(queue) && |Body(queue[..i])| < BODY_MAX && |Body(queue[..i])| <= i * LINE_MAX
    ensures var n := BatchSize(queue, i, |Body(queue[..i])|);
            && |Body(queue[..n])| < BODY_MAX
            && (i <= 7 ==> n >= Min(|queue|, 7))
    decreases |queue| - i
  {
    var len := |Body(queue[..i])|;
    if i < |queue| && len + LINE_MAX < BODY_MAX && len + |queue[i]| + 2 < BODY_MAX {
      assert queue[..i + 1][..i] == queue[..i];
      BatchFrom(queue, i + 1);
    }
  }

  /** Every batch fits the body buffer with its terminator, and takes at least seven lines, or
      all of a shorter queue. */
  lemma BatchFits(queue: seq<Text>)
    requires Short(queue)
    ensures var n := BatchSize(queue, 0, 0);
            |Body(queue[..n])| < 6144 && n >= Min(|queue|, 7)
  {
    BatchFrom(queue, 0);
  }

  lemma {:induction false} BatchMaximal(queue: seq<Text>, i: nat)
    requires i <= |queue|
    ensures var n := BatchSize(queue, i, |Body(queue[..i])|);
            n < |queue| ==> |Body(queue[..n])| + 768 >= 6144 || |Body(queue[..n])| + |queue[n]| + 2 >= 6144
    decreases |queue| - i
  {
    if i < |queue| {
      assert queue[..i + 1][..i] == queue[..i];
      BatchMaximal(queue, i + 1);
    }
  }

  /** A batch stops before the end of the queue only where another line of the greatest length, or
      the next line with its newline, would not fit. */
  lemma BatchStopsWhenFull(queue: seq<Text>)
    ensures var n := BatchSize(queue, 0, 0);
            n < |queue| ==> |Body(queue[..n])| + 768 >= 6144 || |Body(queue[..n])| + |queue[n]| + 2 >= 6144
  {
    BatchMaximal(queue, 0);
  }

  // ---- Operations ----

  datatype Op =
    | Push(line: Text)
    /** The first `printed` lines print; then one fails, unless the queue ends. */
    | Flush(printed: nat)
    | Post(ok: bool)
    | Configure(lines: nat, valid: bool, gotMemory: bool)

  function WantedLines(lines: nat): nat {
    if lines == 0 then DEFAULT_LINES else lines
  }

  function Step(s: Spool, op: Op): (s': Spool)
    requires |s.queue| <= |s.accepted|
    ensures |s'.queue| <= |s'.accepted|
  {
    match op
    case Push(line) => Pushed(s, line)
    case Flush(printed) => Emitted(s, Min(printed, |s.queue|))
    case Post(ok) => if ok then Emitted(s, BatchSize(s.queue, 0, 0)) else s
    case Configure(lines, valid, gotMemory) =>
      var want := WantedLines(lines);
      if !valid || want > HARD_CAP then s
      else if want == s.cap then s.(maxLines := want, generation := s.generation + 1)
      else
        var emptied := s.(queue := [], discarded := s.discarded + |s.queue|);
        if gotMemory then emptied.(cap := want, maxLines := want, generation := s.generation + 1)
        else emptied.(cap := 0)
  }

  /** A configuration is refused when it is invalid or asks for more than 1024 lines, 0 standing for
      256. Otherwise a ring of another size comes up empty, or not at all; the size and generation
      are taken over unless it does not come up. */
  lemma ConfiguredAs(s: Spool, lines: nat, valid: bool, gotMemory: bool, want: nat)
    requires |s.queue| <= |s.accepted| && want == if lines == 0 then 256 else lines
    ensures var s' := Step(s, Configure(lines, valid, gotMemory));
            && s'.accepted == s.accepted && s'.emitted == s.emitted && s'.dropped == s.dropped
            && (!valid || want > 1024 ==> s' == s)
            && (valid && want <= 1024 && want == s.cap ==>
                  s'.queue == s.queue && s'.cap == s.cap && s'.discarded == s.discarded)
            && (valid && want <= 1024 && want != s.cap ==>
                  s'.queue == [] && s'.cap == (if gotMemory then want else 0) && s'.discarded == s.discarded + |s.queue|)
            && (valid && want <= 1024 ==>
                  if want == s.cap || gotMemory then s'.maxLines == want && s'.generation == s.generation + 1
                  else s'.maxLines == s.maxLines && s'.generation == s.generation)
  {
  }

  // ---- What every reachable state keeps ----

  ghost predicate Increasing(s: seq<nat>) {
    forall i, j :: 0 <= i < j < |s| ==> s[i] < s[j]
  }

  ghost predicate Sound(s: Spool) {
    && s.maxLines > 0 && (s.cap == 0 || s.cap == s.maxLines)
    && |s.queue| <= s.cap
    // the queue is the end of what was accepted
    && |s.queue| <= |s.accepted| && s.queue == s.accepted[|s.accepted| - |s.queue|..]
    && Short(s.accepted)
    // every accepted line is accounted for once
    && |s.accepted| == |s.emitted| + s.dropped + s.discarded + |s.queue|
    // lines were emitted in the order of their acceptance, each at most once
    && Increasing(s.emitted)
    && forall i :: 0 <= i < |s.emitted| ==> s.emitted[i] < |s.accepted| - |s.queue|
  }

  lemma EmittedSound(s: Spool, n: nat)
    requires Sound(s) && n <= |s.queue|
    ensures Sound(Emitted(s, n))
  {
    var e := Emitted(s, n);
    assert e.queue == s.accepted[|s.accepted| - |e.queue|..];
  }

  lemma PushedSound(s: Spool, line: Text)
    requires Sound(s)
    ensures Sound(Pushed(s, line))
  {
    var p := Pushed(s, line);
    if s.cap != 0 {
      assert p.queue == p.accepted[|p.accepted| - |p.queue|..];
    }
  }

  lemma StepSound(s: Spool, op: Op)
    requires Sound(s)
    ensures Sound(Step(s, op))
  {
    match op
    case Push(line) => PushedSound(s, line);
    case Flush(printed) => EmittedSound(s, Min(printed, |s.queue|));
    case Post(ok) =>
      if ok {
        EmittedSound(s, BatchSize(s.queue, 0, 0));
      }
    case Configure(lines, valid, gotMemory) =>
      var t := Step(s, op);
      assert t.queue == s.queue || t.queue == [] == t.accepted[|t.accepted|..];
  }

  function Run(maxLines: nat, ops: seq<Op>): (s: Spool)
    requires 0 < maxLines
    ensures |s.queue| <= |s.accepted|
  {
    if |ops| == 0 then Created(maxLines)
    else
      var s := Run(maxLines, ops[..|ops| - 1]);
      Step(s, ops[|ops| - 1])
  }

  /** In every run the queue is the last lines accepted; every accepted line is queued, dropped,
      discarded by a resize or emitted, once and in order; and the ring has the configured size
      or none. */
  lemma {:induction false} RunSound(maxLines: nat, ops: seq<Op>)
    requires 0 < maxLines
    ensures Sound(Run(maxLines, ops))
  {
    if |ops| > 0 {
      RunSound(maxLines, ops[..|ops| - 1]);
      StepSound(Run(maxLines, ops[..|ops| - 1]), ops[|ops| - 1]);
    }
  }

  /** The lines that a run pushed while there was a ring, as far as they are kept. */
  function PushedLines(maxLines: nat, ops: seq<Op>): seq<Text>
    requires 0 < maxLines
  {
    if |ops| == 0 then []
    else
      var before, op := ops[..|ops| - 1], ops[|ops| - 1];
      PushedLines(maxLines, before) + if op.Push? && Run(maxLines, before).cap > 0 then [op.line[..Min(|op.line|, 767)]] else []
  }

  /** The accepted lines of a run are the pushed ones, each cut to 767 bytes. */
  lemma {:induction false} AcceptedIsPushed(maxLines: nat, ops: seq<Op>)
    requires 0 < maxLines
    ensures Run(maxLines, ops).accepted == PushedLines(maxLines, ops)
  {
    if |ops| > 0 {
      AcceptedIsPushed(maxLines, ops[..|ops| - 1]);
      AcceptsPush(Run(maxLines, ops[..|ops| - 1]), ops[|ops| - 1]);
    }
  }

  lemma AcceptsPush(s: Spool, op: Op)
    requires |s.queue| <= |s.accepted|
    ensures Step(s, op).accepted
              == s.accepted + if op.Push? && s.cap > 0 then [op.line[..Min(|op.line|, 767)]] else []
  {
    if op.Push? {
      assert Truncated(op.line) == op.line[..Min(|op.line|, LINE_MAX - 1)];
    }
  }

  /** A push lengthens the queue by one until the ring is full, and then drops the oldest line. */
  lemma PushDropsOldest(s: Spool, line: Text)
    requires Sound(s) && s.cap > 0
    ensures var s' := Step(s, Push(line));
            && |s'.queue| == Min(|s.queue| + 1, s.cap)
            && s'.dropped - s.dropped == |s.queue| + 1 - |s'.queue|
            && s'.queue[..|s'.queue| - 1] == s.queue[s'.dropped - s.dropped..]
  {
  }

  lemma QueueShort(s: Spool)
    requires Sound(s)
    ensures Short(s.queue)
  {
    assert forall i :: 0 <= i < |s.queue| ==> s.queue[i] == s.accepted[|s.accepted| - |s.queue| + i];
  }

  lemma PostDrains(s: Spool)
    requires Sound(s)
    ensures var s' := Step(s, Post(true));
            Sound(s') && |s'.queue| <= Max(|s.queue| - 7, 0)
  {
    QueueShort(s);
    BatchFits(s.queue);
    StepSound(s, Post(true));
  }

  /** Posts drain the queue: of d lines, at most d - 7k remain after k successful ones. */
  lemma {:induction false} PostsDrain(s: Spool, k: nat)
    requires Sound(s)
    ensures Sound(Posted(s, k)) && |Posted(s, k).queue| <= Max(|s.queue| - 7 * k, 0)
  {
    if k > 0 {
      PostsDrain(s, k - 1);
      PostDrains(Posted(s, k - 1));
    }
  }

  function Posted(s: Spool, k: nat): (s': Spool)
    requires |s.queue| <= |s.accepted|
    ensures |s'.queue| <= |s'.accepted|
  {
    if k == 0 then s else Step(Posted(s, k - 1), Post(true))
  }
}
