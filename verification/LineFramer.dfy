/** The control socket's line framer: requests arrive as a chunked byte stream and are cut into
    lines in a fixed buffer per client. */
module LineFramer {
  import opened Bytes

  const LINE_MAX: nat := 8192
  /** How many bytes a buffer holds before its terminator. */
  const ROOM: nat := LINE_MAX - 1
  const NEWLINE: byte := 10
  const CR: byte := 13

  // ---- Framing, byte by byte ----

  /** The lines completed so far, the bytes of the next one, and whether the client was closed. */
  datatype Framing = Framing(lines: seq<seq<byte>>, partial: seq<byte>, closed: bool)

  const Start := Framing([], [], false)

  /** A newline completes a line; a line that would fill the buffer closes the client. */
  function Feed(f: Framing, b: byte): Framing {
    if f.closed then f
    else if b == NEWLINE then Framing(f.lines + [f.partial], [], false)
    else if |f.partial| + 1 < ROOM then f.(partial := f.partial + [b])
    else Framing(f.lines, [], true)
  }

  function FeedAll(f: Framing, s: seq<byte>): Framing
    decreases |s|
  {
    if |s| == 0 then f else FeedAll(Feed(f, s[0]), s[1..])
  }

  // ---- Framing, chunk by chunk ----

  function FirstNewline(s: seq<byte>): (i: nat)
    ensures i <= |s|
    ensures i < |s| ==> s[i] == NEWLINE
    ensures forall j :: 0 <= j < i ==> s[j] != NEWLINE
  {
    if |s| == 0 || s[0] == NEWLINE then 0 else 1 + FirstNewline(s[1..])
  }

  /** The complete lines of a buffer. */
  function Lines(s: seq<byte>): seq<seq<byte>> {
    var k := FirstNewline(s);
    if k == |s| then [] else [s[..k]] + Lines(s[k + 1..])
  }

  /** What follows its last newline. */
  function Rest(s: seq<byte>): (r: seq<byte>)
    ensures NEWLINE !in r && |r| <= |s|
  {
    var k := FirstNewline(s);
    if k == |s| then s else Rest(s[k + 1..])
  }

  /** One poll that receives a chunk. */
  function Serve(f: Framing, chunk: seq<byte>): Framing {
    if f.closed then f
    else
      var whole := f.partial + chunk;
      if |Rest(whole)| >= ROOM then Framing(f.lines + Lines(whole), [], true)
      else Framing(f.lines + Lines(whole), Rest(whole), false)
  }

  function ServeAll(f: Framing, chunks: seq<seq<byte>>): Framing
    decreases |chunks|
  {
    if |chunks| == 0 then f else ServeAll(Serve(f, chunks[0]), chunks[1..])
  }

  /** Each chunk is no longer than the room left when it is received; once the client is closed
      nothing more is received. */
  ghost predicate Receivable(f: Framing, chunks: seq<seq<byte>>)
    decreases |chunks|
  {
    |chunks| == 0 || f.closed
    || (|f.partial| + |chunks[0]| <= ROOM && Receivable(Serve(f, chunks[0]), chunks[1..]))
  }

  function Flatten(chunks: seq<seq<byte>>): seq<byte> {
    if |chunks| == 0 then [] else chunks[0] + Flatten(chunks[1..])
  }

  /** What is between polls: an open client's buffer holds no newline and has room for a byte. */
  ghost predicate Between(f: Framing) {
    !f.closed ==> NEWLINE !in f.partial && |f.partial| < ROOM
  }

  // ---- Chunks do not matter ----

  lemma {:induction false} ClosedStays(f: Framing, s: seq<byte>)
    requires f.closed
    ensures FeedAll(f, s) == f
  {
    if |s| > 0 {
      ClosedStays(f, s[1..]);
    }
  }

  lemma {:induction false} FirstNewlineAfter(p: seq<byte>, s: seq<byte>)
    requires NEWLINE !in p && (|s| == 0 || s[0] == NEWLINE)
    ensures FirstNewline(p + s) == |p|
  {
    if |p| > 0 {
      assert p[0] in p && (p + s)[1..] == p[1..] + s;
      FirstNewlineAfter(p[1..], s);
    } else {
      assert p + s == s;
    }
  }

  lemma {:induction false} ServeIsFeed(f: Framing, chunk: seq<byte>)
    requires Between(f) && (f.closed || |f.partial| + |chunk| <= ROOM)
    ensures FeedAll(f, chunk) == Serve(f, chunk)
    decreases |chunk|
  {
    if f.closed {
      ClosedStays(f, chunk);
    } else if |chunk| == 0 || chunk[0] == NEWLINE {
      FirstNewlineAfter(f.partial, chunk);
      if |chunk| > 0 {
        var f' := Feed(f, NEWLINE);
        ServeIsFeed(f', chunk[1..]);
        LinesFrom(f, chunk);
      } else {
        assert f.partial + chunk == f.partial;
        assert f.lines + Lines(f.partial + chunk) == f.lines;
      }
    } else if |f.partial| + 1 < ROOM {
      ServeIsFeed(Feed(f, chunk[0]), chunk[1..]);
      assert f.partial + [chunk[0]] + chunk[1..] == f.partial + chunk;
    } else {
      FilledUp(f, chunk);
    }
  }

  lemma LinesFrom(f: Framing, chunk: seq<byte>)
    requires NEWLINE !in f.partial && |chunk| > 0 && chunk[0] == NEWLINE
    ensures f.lines + Lines(f.partial + chunk) == f.lines + [f.partial] + Lines([] + chunk[1..])
    ensures Rest(f.partial + chunk) == Rest([] + chunk[1..])
  {
    FirstNewlineAfter(f.partial, chunk);
    assert (f.partial + chunk)[..|f.partial|] == f.partial;
    assert (f.partial + chunk)[|f.partial| + 1..] == chunk[1..] == [] + chunk[1..];
  }

  lemma FilledUp(f: Framing, chunk: seq<byte>)
    requires Between(f) && !f.closed && |f.partial| + 1 == ROOM && |chunk| == 1 && chunk[0] != NEWLINE
    ensures FeedAll(f, chunk) == Serve(f, chunk) == Framing(f.lines, [], true)
  {
    var whole := f.partial + chunk;
    assert NEWLINE !in whole;
    assert FirstNewline(whole) == |whole|;
    assert f.lines + [] == f.lines;
    assert FeedAll(Feed(f, chunk[0]), chunk[1..]) == Feed(f, chunk[0]);
  }

  lemma {:induction false} FeedConcat(f: Framing, a: seq<byte>, b: seq<byte>)
    ensures FeedAll(f, a + b) == FeedAll(FeedAll(f, a), b)
    decreases |a|
  {
    if |a| == 0 {
      assert a + b == b;
    } else {
      assert (a + b)[1..] == a[1..] + b;
      FeedConcat(Feed(f, a[0]), a[1..], b);
    }
  }

  /** However the stream is cut into receivable chunks, serving them is framing it byte by byte:
      same lines, same remainder, closed at the same byte or not at all. */
  lemma {:induction false} ChunksDoNotMatter(f: Framing, chunks: seq<seq<byte>>)
    requires Between(f) && Receivable(f, chunks)
    ensures ServeAll(f, chunks) == FeedAll(f, Flatten(chunks)) && Between(ServeAll(f, chunks))
    decreases |chunks|
  {
    if f.closed {
      ClosedStays(f, Flatten(chunks));
      if |chunks| > 0 {
        ChunksDoNotMatter(f, chunks[1..]);
        ClosedStays(f, Flatten(chunks[1..]));
      }
    } else if |chunks| > 0 {
      ServeIsFeed(f, chunks[0]);
      FeedConcat(f, chunks[0], Flatten(chunks[1..]));
      ChunksDoNotMatter(Serve(f, chunks[0]), chunks[1..]);
    }
  }

  /** Two ways of cutting the same stream give the same requests and the same end. */
  lemma SameStreamSameFrames(chunks: seq<seq<byte>>, chunks': seq<seq<byte>>)
    requires Receivable(Start, chunks) && Receivable(Start, chunks') && Flatten(chunks) == Flatten(chunks')
    ensures ServeAll(Start, chunks) == ServeAll(Start, chunks')
  {
    ChunksDoNotMatter(Start, chunks);
    ChunksDoNotMatter(Start, chunks');
  }

  // ---- Framing inverts joining ----

  function Join(lines: seq<seq<byte>>): seq<byte> {
    if |lines| == 0 then [] else lines[0] + [10] + Join(lines[1..])
  }

  lemma {:induction false} FeedLine(f: Framing, line: seq<byte>)
    requires !f.closed && NEWLINE !in line
    ensures FeedAll(f, line) == if |line| > 0 && |f.partial| + |line| >= ROOM then Framing(f.lines, [], true)
                                else f.(partial := f.partial + line)
    decreases |line|
  {
    if |line| > 0 {
      assert line[0] in line;
      if |f.partial| + 1 < ROOM {
        FeedLine(Feed(f, line[0]), line[1..]);
        assert f.partial + [line[0]] + line[1..] == f.partial + line;
      } else {
        ClosedStays(Feed(f, line[0]), line[1..]);
      }
    } else {
      assert f.partial + line == f.partial;
    }
  }

  /** The framer hands back exactly the joined lines, and keeps the client open, if and only if
      every line is shorter than the room of the buffer. */
  lemma {:induction false} FramingInvertsJoin(f: Framing, lines: seq<seq<byte>>)
    requires !f.closed && f.partial == [] && forall i :: 0 <= i < |lines| ==> 10 !in lines[i]
    ensures (forall i :: 0 <= i < |lines| ==> |lines[i]| < 8191)
            <==> FeedAll(f, Join(lines)) == Framing(f.lines + lines, [], false)
    ensures (exists i :: 0 <= i < |lines| && |lines[i]| >= 8191) <==> FeedAll(f, Join(lines)).closed
    decreases |lines|
  {
    if |lines| > 0 {
      FeedConcat(f, lines[0] + [NEWLINE], Join(lines[1..]));
      FeedConcat(f, lines[0], [NEWLINE]);
      FeedLine(f, lines[0]);
      var f1 := FeedAll(f, lines[0]);
      assert FeedAll(f1, [NEWLINE]) == Feed(f1, NEWLINE);
      if |lines[0]| < ROOM {
        var f2 := Feed(f1, NEWLINE);
        assert f2 == Framing(f.lines + [lines[0]], [], false) by { assert [] + lines[0] == lines[0]; }
        FramingInvertsJoin(f2, lines[1..]);
        assert f.lines + [lines[0]] + lines[1..] == f.lines + lines;
        assert forall i :: 0 <= i < |lines[1..]| ==> lines[1..][i] == lines[i + 1];
      } else {
        ClosedStays(f1, Join(lines[1..]));
      }
    } else {
      assert f.lines + lines == f.lines;
    }
  }

  // ---- A client's buffer in place ----

  /** A line as the request handler sees it: without a carriage return at its end, and only up to
      its first NUL. */
  function Handed(line: seq<byte>): seq<byte> {
    UpToNul(if |line| > 0 && line[|line| - 1] == CR then line[..|line| - 1] else line)
  }

  function UpToNul(s: seq<byte>): seq<byte> {
    if |s| == 0 || s[0] == 0 then [] else [s[0]] + UpToNul(s[1..])
  }

  function HandedAll(lines: seq<seq<byte>>): (hs: seq<seq<byte>>)
    ensures |hs| == |lines|
  {
    seq(|lines|, i requires 0 <= i < |lines| => Handed(lines[i]))
  }

  /** A request without NULs is handed over as sent, whether its line ends in LF or in CR LF. */
  lemma {:induction false} HandedAsSent(line: seq<byte>)
    requires 0 !in line && (|line| > 0 ==> line[|line| - 1] != 13)
    ensures Handed(line) == line && Handed(line + [13]) == line
  {
    AllBeforeNul(line);
    assert (line + [CR])[..|line|] == line;
  }

  lemma {:induction false} AllBeforeNul(s: seq<byte>)
    requires 0 !in s
    ensures UpToNul(s) == s
  {
    if |s| > 0 {
      assert s[0] in s;
      AllBeforeNul(s[1..]);
    }
  }

  datatype Recv = WouldBlock | Failed | Eof | Data(bytes: seq<byte>)

  class Client {
    var open: bool
    const rbuf: array<byte>
    var rlen: nat

    ghost predicate Valid()
      reads this, rbuf
    {
      rbuf.Length == LINE_MAX && rlen < LINE_MAX && (!open ==> rlen == 0)
    }

    ghost function Buffer(): seq<byte>
      requires Valid()
      reads this, rbuf
    {
      rbuf[..rlen]
    }

    /** The client as the byte-wise framing sees it, having completed these lines. */
    ghost function View(lines: seq<seq<byte>>): Framing
      requires Valid()
      reads this, rbuf
    {
      Framing(lines, Buffer(), !open)
    }

    constructor ()
      ensures Valid() && open && Buffer() == [] && fresh(rbuf)
    {
      open, rlen := true, 0;
      rbuf := new byte[LINE_MAX](_ => 0);
    }

    method Close()
      requires rbuf.Length == LINE_MAX
      modifies this
      ensures Valid() && !open && Buffer() == []
    {
      open, rlen := false, 0;
    }

    /** One poll of the client. Received bytes are appended, and complete lines handed over; the
        `sends`-th reply cannot be sent and closes the client, if there are that many lines. */
    method Service(recv: Recv, sends: nat) returns (handed: seq<seq<byte>>, handled: nat)
      requires Valid() && open && Between(View([]))
      requires recv.Data? ==> 0 < |recv.bytes| <= ROOM - rlen
      modifies this, rbuf
      ensures Valid() && Between(View([]))
      ensures recv.WouldBlock? ==> open && Buffer() == old(Buffer()) && handed == [] && handled == 0
      ensures recv.Failed? || recv.Eof? ==> !open && handed == [] && handled == 0
      ensures recv.Data? ==>
                var lines := Lines(old(Buffer()) + recv.bytes);
                && handled == Min(sends, |lines|)
                && (|lines| <= sends ==> handed == HandedAll(lines) && View(lines) == Serve(old(View([])), recv.bytes))
                && (sends < |lines| ==> !open && handed == HandedAll(lines[..sends + 1]))
    {
      handed, handled := [], 0;
      match recv {
        case WouldBlock => return;
        case Failed => Close(); return;
        case Eof => Close(); return;
        case Data(_) =>
      }
      Append(recv.bytes);
      handed, handled := ProcessLines(sends);
    }

    /** Hands over the complete lines of the buffer, in order, and keeps what follows them. */
    method ProcessLines(sends: nat) returns (handed: seq<seq<byte>>, handled: nat)
      requires Valid() && open
      modifies this, rbuf
      ensures Valid()
      ensures var lines, rest := Lines(old(Buffer())), Rest(old(Buffer()));
              && handled == Min(sends, |lines|)
              && (|lines| <= sends ==>
                    handed == HandedAll(lines) && open == (|rest| < ROOM) && Buffer() == if open then rest else [])
              && (sends < |lines| ==> !open && handed == HandedAll(lines[..sends + 1]))
    {
      handed, handled := [], 0;
      ghost var buf := Buffer();
      ghost var lines, rest := Lines(buf), Rest(buf);
      ghost var done: seq<seq<byte>>, todo := [], lines;
      while true
        invariant Valid() && open && handled == |done| <= sends && buf == Buffer()
        invariant lines == done + todo && handed == HandedAll(done)
        invariant todo == Lines(buf) && rest == Rest(buf)
        decreases rlen
      {
        var nl, request := PeekLine(buf);
        if nl == rlen {
          assert lines == done;
          if rlen >= ROOM {
            Close();
          }
          break;
        }
        OneMoreDone(done, todo);
        done, todo := done + [todo[0]], todo[1..];
        handed := handed + [request];
        if handled == sends {
          assert lines[..sends + 1] == done;
          Close();
          return;
        }
        handled := handled + 1;
        Shift(nl + 1);
        buf := buf[nl + 1..];
      }
    }

    /** Reads the first complete line, if there is one, and terminates it in the buffer. */
    method PeekLine(ghost buf: seq<byte>) returns (nl: nat, request: seq<byte>)
      requires Valid() && open && buf == Buffer()
      modifies rbuf
      ensures Valid() && nl <= rlen && (nl < rlen ==> Buffer()[nl + 1..] == buf[nl + 1..])
      ensures nl == rlen ==> Buffer() == buf && Lines(buf) == [] && Rest(buf) == buf
      ensures nl < rlen ==> |Lines(buf)| > 0 && request == Handed(Lines(buf)[0])
      ensures nl < rlen ==> Lines(buf[nl + 1..]) == Lines(buf)[1..] && Rest(buf[nl + 1..]) == Rest(buf)
    {
      nl := FindNewline();
      request := [];
      if nl < rlen {
        FirstLine(buf);
        request := TakeLine(nl);
      }
    }

    method Append(bytes: seq<byte>)
      requires Valid() && open && rlen + |bytes| <= ROOM
      modifies this`rlen, rbuf
      ensures Valid() && Buffer() == old(Buffer()) + bytes && rbuf[rlen] == 0
    {
      var at, k := rlen, 0;
      while k < |bytes|
        invariant 0 <= k <= |bytes| && rlen == at
        invariant rbuf[..at + k] == old(Buffer()) + bytes[..k]
      {
        rbuf[at + k] := bytes[k];
        k := k + 1;
      }
      rlen := at + |bytes|;
      assert rbuf[..rlen] == old(Buffer()) + bytes;
      rbuf[rlen] := 0;
    }

    /** Terminates the line that ends at `nl` and reads it as a C string. */
    method TakeLine(nl: nat) returns (request: seq<byte>)
      requires Valid() && nl < rlen
      modifies rbuf
      ensures Valid() && request == Handed(old(Buffer())[..nl])
      ensures Buffer()[nl + 1..] == old(Buffer())[nl + 1..]
    {
      ghost var line := rbuf[..nl];
      assert line == Buffer()[..nl];
      rbuf[nl] := 0;
      var end := nl;
      if nl > 0 && rbuf[nl - 1] == CR {
        rbuf[nl - 1] := 0;
        end := nl - 1;
      }
      request := CString();
      assert rbuf[..] == line[..end] + [0] + rbuf[end + 1..];
      UpToNulAt(line[..end], rbuf[end + 1..]);
      assert line[..nl] == line;
    }

    /** Moves what follows the first n bytes to the front of the buffer. */
    method Shift(n: nat)
      requires Valid() && open && n <= rlen
      modifies this`rlen, rbuf
      ensures Valid() && Buffer() == old(Buffer())[n..] && rbuf[rlen] == 0
    {
      var rest := rlen - n;
      forall k | 0 <= k < rest {
        rbuf[k] := rbuf[n + k];
      }
      rlen := rest;
      rbuf[rlen] := 0;
    }

    /** The position of the first newline in the buffer, or its length. */
    method FindNewline() returns (i: nat)
      requires Valid()
      ensures i == FirstNewline(Buffer())
    {
      i := 0;
      while i < rlen && rbuf[i] != NEWLINE
        invariant 0 <= i <= rlen
        invariant forall j :: 0 <= j < i ==> rbuf[j] != NEWLINE
      {
        i := i + 1;
      }
      assert forall j :: 0 <= j < rlen ==> Buffer()[j] == rbuf[j];
    }

    /** The buffer read as a C string. */
    method CString() returns (s: seq<byte>)
      requires Valid()
      ensures s == UpToNul(rbuf[..])
    {
      var i := 0;
      while i < rbuf.Length && rbuf[i] != 0
        invariant 0 <= i <= rbuf.Length
        invariant forall j :: 0 <= j < i ==> rbuf[j] != 0
      {
        i := i + 1;
      }
      s := rbuf[..i];
      UpToNulIs(rbuf[..], i);
    }
  }

  /** A NUL after some bytes hides whatever follows it. */
  lemma {:induction false} UpToNulAt(s: seq<byte>, t: seq<byte>)
    ensures UpToNul(s + [0] + t) == UpToNul(s)
  {
    if |s| > 0 {
      assert (s + [0] + t)[1..] == s[1..] + [0] + t;
      UpToNulAt(s[1..], t);
    }
  }

  lemma FirstLine(s: seq<byte>)
    requires FirstNewline(s) < |s|
    ensures var nl := FirstNewline(s);
            |Lines(s)| > 0 && Lines(s)[0] == s[..nl] && Lines(s)[1..] == Lines(s[nl + 1..]) && Rest(s) == Rest(s[nl + 1..])
  {
    var first, later := [s[..FirstNewline(s)]], Lines(s[FirstNewline(s) + 1..]);
    assert Lines(s) == first + later;
    assert (first + later)[1..] == later;
  }

  lemma OneMoreDone(done: seq<seq<byte>>, todo: seq<seq<byte>>)
    requires |todo| > 0
    ensures done + todo == done + [todo[0]] + todo[1..]
    ensures HandedAll(done + [todo[0]]) == HandedAll(done) + [Handed(todo[0])]
  {
  }

  lemma {:induction false} UpToNulIs(s: seq<byte>, i: nat)
    requires i <= |s| && (forall j :: 0 <= j < i ==> s[j] != 0) && (i < |s| ==> s[i] == 0)
    ensures UpToNul(s) == s[..i]
  {
    if i > 0 {
      UpToNulIs(s[1..], i - 1);
      assert s[..i] == [s[0]] + s[1..][..i - 1];
    }
  }
}
