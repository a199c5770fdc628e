/** Decoding of a chunked HTTP response body (section 7.1 of RFC 9112) into a bounded buffer. */
module Dechunk {
  import opened Bytes
  import opened Wrappers
  import opened HexNumerals

  const CR: byte := 13
  const LF: byte := 10

  /** Past one line end: an optional CR, then an optional LF. */
  function AfterEol(s: seq<byte>): (t: seq<byte>)
    ensures |t| <= |s|
  {
    if |s| > 1 && s[0] == CR && s[1] == LF then s[2..]
    else if |s| > 0 && (s[0] == CR || s[0] == LF) then s[1..]
    else s
  }

  // ---- The decoder ----

  /** How the loop ends: with every copy inside both buffers, or at a copy that would read behind
      the body, or at one that would write behind the output buffer. */
  datatype Ending = Inside | OverRead | OverWrite

  datatype Decoded = Decoded(out: seq<byte>, ending: Ending)

  /** Addition in an `unsigned long`. */
  function AddLong(a: nat, b: nat): nat
    requires a < ULONG && b < ULONG
  {
    if a + b < ULONG then a + b else a + b - ULONG
  }

  /** How much of a chunk is copied, with o bytes already in a buffer of outSize. */
  function CopySize(chunk: nat, o: nat, outSize: nat): nat
    requires o < outSize < ULONG && chunk < ULONG
  {
    if AddLong(o, chunk) >= outSize then outSize - o - 1 else chunk
  }

  /** One turn of the loop: it ends, or copies some data and goes on with the rest. */
  datatype Turn = End(how: Ending) | Copy(data: seq<byte>, rest: seq<byte>)

  function NextTurn(p: seq<byte>, o: nat, outSize: nat): (t: Turn)
    requires o < outSize < ULONG
    ensures t.Copy? ==> |t.rest| < |p| && o + |t.data| < outSize
  {
    if |p| == 0 || p[0] == 0 || o + 1 >= outSize then End(Inside)
    else
      var size := Strtoul(p);
      if size.used == 0 || size.value == 0 then End(Inside) else DataTurn(AfterEol(p[size.used..]), size.value, o, outSize)
  }

  function DataTurn(q: seq<byte>, size: nat, o: nat, outSize: nat): (t: Turn)
    requires o < outSize < ULONG && size < ULONG
    ensures t.Copy? ==> |t.rest| <= |q| && o + |t.data| < outSize
  {
    var n := CopySize(size, o, outSize);
    if o + n >= outSize then End(OverWrite)
    else if n > |q| then End(OverRead)
    else Copy(q[..n], AfterEol(q[n..]))
  }

  /** The loop from p on, with `done` already decoded. */
  function Decode(p: seq<byte>, done: seq<byte>, outSize: nat): Decoded
    requires |done| < outSize < ULONG
    decreases |p|
  {
    var t := NextTurn(p, |done|, outSize);
    if t.Copy? then Decode(t.rest, done + t.data, outSize) else Decoded(done, t.how)
  }

  /** The decoding loop over the output buffer; the output is terminated by a NUL. */
  method DecodeBody(body: seq<byte>, out: array<byte>) returns (o: nat, ending: Ending)
    requires 0 < out.Length < ULONG
    modifies out
    ensures o < out.Length && out[o] == 0
    ensures Decoded(out[..o], ending) == Decode(body, [], out.Length)
  {
    o, ending := 0, Inside;
    var p := body;
    ghost var done: seq<byte> := [];
    ghost var all := Decode(body, [], out.Length);
    while true
      invariant o == |done| < out.Length && out[..o] == done
      invariant all == Decode(p, done, out.Length)
      decreases |p|
    {
      var t: Turn;
      t, o, done := Round(p, out, o, done);
      if !t.Copy? {
        ending := t.how;
        break;
      }
      p := t.rest;
    }
    Terminate(out, o);
  }

  /** One turn, with its data copied to the output. */
  method Round(p: seq<byte>, out: array<byte>, o: nat, ghost done: seq<byte>) returns (t: Turn, o': nat, ghost done': seq<byte>)
    requires o == |done| < out.Length < ULONG && out[..o] == done
    modifies out
    ensures o' == |done'| < out.Length && out[..o'] == done'
    ensures t.Copy? ==> |t.rest| < |p|
    ensures Decode(p, done, out.Length)
            == if t.Copy? then Decode(t.rest, done', out.Length) else Decoded(done', t.how)
  {
    t := TakeTurn(p, o, out.Length, done);
    o', done' := o, done;
    if t.Copy? {
      CopyInto(out, o, t.data);
      o', done' := o + |t.data|, done + t.data;
    }
  }

  method Terminate(out: array<byte>, o: nat)
    requires o < out.Length
    modifies out
    ensures out[o] == 0 && out[..o] == old(out[..o])
  {
    out[o] := 0;
  }

  lemma OneTurn(p: seq<byte>, done: seq<byte>, outSize: nat, t: Turn)
    requires |done| < outSize < ULONG && t == NextTurn(p, |done|, outSize)
    ensures t.End? ==> Decode(p, done, outSize) == Decoded(done, t.how)
    ensures t.Copy? ==> |done + t.data| < outSize && Decode(p, done, outSize) == Decode(t.rest, done + t.data, outSize)
  {
  }

  /** What one turn reads from the body and how much it may copy. */
  method TakeTurn(p: seq<byte>, o: nat, outSize: nat, ghost done: seq<byte>) returns (t: Turn)
    requires o == |done| < outSize < ULONG
    ensures t.Copy? ==> |t.rest| < |p| && |done + t.data| < outSize
    ensures Decode(p, done, outSize)
            == if t.Copy? then Decode(t.rest, done + t.data, outSize) else Decoded(done, t.how)
  {
    t := ReadTurn(p, o, outSize);
    OneTurn(p, done, outSize, t);
  }

  method ReadTurn(p: seq<byte>, o: nat, outSize: nat) returns (t: Turn)
    requires o < outSize < ULONG
    ensures t == NextTurn(p, o, outSize)
  {
    if |p| == 0 || p[0] == 0 || o + 1 >= outSize {
      return End(Inside);
    }
    var num := Strtoul(p);
    var chunk, used := num.value, num.used;
    if used == 0 {
      return End(Inside);
    }
    var q := SkipEol(p[used..]);
    if chunk == 0 {
      return End(Inside);
    }
    t := ReadData(q, chunk, o, outSize);
  }

  method ReadData(q: seq<byte>, size: nat, o: nat, outSize: nat) returns (t: Turn)
    requires o < outSize < ULONG && size < ULONG
    ensures t == DataTurn(q, size, o, outSize)
  {
    var chunk := size;
    if AddLong(o, chunk) >= outSize {
      chunk := outSize - o - 1;
    }
    if o + chunk >= outSize {
      return End(OverWrite);
    }
    if chunk > |q| {
      return End(OverRead);
    }
    var rest := SkipEol(q[chunk..]);
    return Copy(q[..chunk], rest);
  }

  method SkipEol(s: seq<byte>) returns (t: seq<byte>)
    ensures t == AfterEol(s)
  {
    t := s;
    if |t| > 0 && t[0] == CR {
      t := t[1..];
    }
    if |t| > 0 && t[0] == LF {
      t := t[1..];
    }
  }

  method CopyInto(out: array<byte>, at: nat, s: seq<byte>)
    requires at + |s| <= out.Length
    modifies out
    ensures out[..at + |s|] == old(out[..at]) + s
  {
    forall k | 0 <= k < |s| {
      out[at + k] := s[k];
    }
  }

  // ---- Chunked encoding ----

  const SIZE_LIMIT: nat := ULONG / 2

  /** A chunk: its size in any hexadecimal spelling, and its data. */
  datatype Chunk = Chunk(size: seq<byte>, data: seq<byte>) {
    ghost predicate Valid() {
      Spells(size, |data|) && 0 < |data| < SIZE_LIMIT
    }
  }

  ghost predicate ValidChunks(chunks: seq<Chunk>) {
    forall i :: 0 <= i < |chunks| ==> chunks[i].Valid()
  }

  /** The chunks, then a last chunk of size zero and any trailer. */
  function Encode(chunks: seq<Chunk>, last: seq<byte>, trailer: seq<byte>): seq<byte> {
    if |chunks| == 0 then last + ([13, 10] + trailer)
    else chunks[0].size + ([13, 10] + (chunks[0].data + ([13, 10] + Encode(chunks[1..], last, trailer))))
  }

  function Content(chunks: seq<Chunk>): seq<byte> {
    if |chunks| == 0 then [] else chunks[0].data + Content(chunks[1..])
  }

  function Cut(s: seq<byte>, n: nat): seq<byte> {
    if |s| <= n then s else s[..n]
  }

  /** A spelled size before a line end is read as that size, whole. */
  lemma ReadSize(size: seq<byte>, n: nat, after: seq<byte>)
    requires Spells(size, n) && n < ULONG
    ensures var s := size + ([CR, LF] + after);
            s[0] != 0 && Strtoul(s) == Numeral(n, |size|)
  {
    var rest := [CR, LF] + after;
    ReadNumeral([], [], [], size, n, rest);
    FirstDigit(size, n);
    assert [] + ([] + ([] + (size + rest))) == size + rest;
  }

  lemma AfterCrLf(after: seq<byte>)
    ensures AfterEol([CR, LF] + after) == after
  {
    assert ([CR, LF] + after)[2..] == after;
  }

  /** One chunk at the front of the body: as much of it as fits is copied. */
  lemma OneChunk(c: Chunk, later: seq<byte>, o: nat, outSize: nat)
    requires c.Valid() && o + 1 < outSize <= SIZE_LIMIT
    ensures var t := NextTurn(c.size + ([CR, LF] + (c.data + ([CR, LF] + later))), o, outSize);
            var n := Min(|c.data|, outSize - o - 1);
            t.Copy? && t.data == c.data[..n] && (n == |c.data| ==> t.rest == later)
  {
    var q := c.data + ([CR, LF] + later);
    var p := c.size + ([CR, LF] + q);
    ReadSize(c.size, |c.data|, q);
    AfterCrLf(q);
    assert p[|c.size|..] == [CR, LF] + q;
    assert NextTurn(p, o, outSize) == DataTurn(q, |c.data|, o, outSize);
    ChunkData(c.data, later, o, outSize);
  }

  lemma ChunkData(data: seq<byte>, later: seq<byte>, o: nat, outSize: nat)
    requires |data| < SIZE_LIMIT && o + 1 < outSize <= SIZE_LIMIT
    ensures var t := DataTurn(data + ([CR, LF] + later), |data|, o, outSize);
            var n := Min(|data|, outSize - o - 1);
            t.Copy? && t.data == data[..n] && (n == |data| ==> t.rest == later)
  {
    var n, q := Min(|data|, outSize - o - 1), data + ([CR, LF] + later);
    assert q[..n] == data[..n];
    AfterCrLf(later);
    if n == |data| {
      assert q[n..] == [CR, LF] + later;
    }
  }

  lemma Full(p: seq<byte>, done: seq<byte>, outSize: nat)
    requires |done| + 1 == outSize < ULONG
    ensures Decode(p, done, outSize) == Decoded(done, Inside)
  {
  }

  lemma LastChunk(last: seq<byte>, trailer: seq<byte>, done: seq<byte>, outSize: nat)
    requires |done| < outSize < ULONG && Spells(last, 0)
    ensures Decode(last + ([CR, LF] + trailer), done, outSize) == Decoded(done, Inside)
  {
    ReadSize(last, 0, trailer);
  }

  lemma CutJoin(done: seq<byte>, a: seq<byte>, b: seq<byte>, n: nat)
    ensures |a| <= n ==> done + Cut(a + b, n) == done + a + Cut(b, n - |a|)
    ensures n <= |a| ==> Cut(a + b, n) == a[..n]
  {
  }

  /** A chunk that fits is decoded, and one that does not ends the run. */
  lemma ChunkStep(c: Chunk, later: seq<byte>, done: seq<byte>, outSize: nat)
    requires c.Valid() && |done| + 1 < outSize <= SIZE_LIMIT
    ensures var p, m := c.size + ([CR, LF] + (c.data + ([CR, LF] + later))), outSize - |done| - 1;
            Decode(p, done, outSize)
            == if |c.data| <= m then Decode(later, done + c.data, outSize) else Decoded(done + c.data[..m], Inside)
  {
    if |c.data| <= outSize - |done| - 1 {
      ChunkFits(c, later, done, outSize);
    } else {
      ChunkCut(c, later, done, outSize);
    }
  }

  lemma ChunkFits(c: Chunk, later: seq<byte>, done: seq<byte>, outSize: nat)
    requires c.Valid() && |done| + |c.data| < outSize <= SIZE_LIMIT
    ensures Decode(c.size + ([CR, LF] + (c.data + ([CR, LF] + later))), done, outSize)
            == Decode(later, done + c.data, outSize)
  {
    var p := c.size + ([CR, LF] + (c.data + ([CR, LF] + later)));
    OneChunk(c, later, |done|, outSize);
    assert c.data[..|c.data|] == c.data;
    OneTurn(p, done, outSize, Copy(c.data, later));
  }

  lemma ChunkCut(c: Chunk, later: seq<byte>, done: seq<byte>, outSize: nat)
    requires c.Valid() && |done| + 1 < outSize <= SIZE_LIMIT && outSize <= |done| + |c.data|
    ensures Decode(c.size + ([CR, LF] + (c.data + ([CR, LF] + later))), done, outSize)
            == Decoded(done + c.data[..outSize - |done| - 1], Inside)
  {
    var p := c.size + ([CR, LF] + (c.data + ([CR, LF] + later)));
    OneChunk(c, later, |done|, outSize);
    var t := NextTurn(p, |done|, outSize);
    OneTurn(p, done, outSize, t);
    Full(t.rest, done + t.data, outSize);
  }

  /** Decoding inverts chunked encoding: for every list of non-empty chunks, however their sizes
      are written, the output is their concatenation, cut to what fits before the terminator. */
  lemma {:induction false} DecodeInvertsEncode(chunks: seq<Chunk>, last: seq<byte>, trailer: seq<byte>, done: seq<byte>, outSize: nat)
    requires ValidChunks(chunks) && |done| < outSize <= SIZE_LIMIT
    requires Spells(last, 0)
    ensures Decode(Encode(chunks, last, trailer), done, outSize)
            == Decoded(done + Cut(Content(chunks), outSize - |done| - 1), Inside)
    decreases |chunks|
  {
    var p, m := Encode(chunks, last, trailer), outSize - |done| - 1;
    if |chunks| == 0 {
      LastChunk(last, trailer, done, outSize);
      assert done + [] == done;
    } else if m > 0 {
      var c, later := chunks[0], Encode(chunks[1..], last, trailer);
      ChunkStep(c, later, done, outSize);
      CutJoin(done, c.data, Content(chunks[1..]), m);
      if |c.data| <= m {
        DecodeInvertsEncode(chunks[1..], last, trailer, done + c.data, outSize);
      }
    } else {
      Full(p, done, outSize);
      assert Cut(Content(chunks), 0) == [] && done + [] == done;
    }
  }

  // ---- Where the copies stay inside the buffers ----

  /** A chunk as the decoder takes it: whatever it reads as a size, a line end or none, the data,
      and again a line end or none. */
  datatype Piece = Piece(size: seq<byte>, eol: seq<byte>, data: seq<byte>, eol': seq<byte>) {
    function Before(after: seq<byte>): seq<byte> {
      size + (eol + (data + (eol' + after)))
    }

    /** The size is read whole and is that of the data, and both line ends are skipped whole. */
    ghost predicate ReadBefore(after: seq<byte>) {
      && 0 < |size| && 0 < |data|
      && Strtoul(Before(after)) == Numeral(|data|, |size|)
      && AfterEol(eol + (data + (eol' + after))) == data + (eol' + after)
      && AfterEol(eol' + after) == after
    }
  }

  function Lay(pieces: seq<Piece>, tail: seq<byte>): seq<byte> {
    if |pieces| == 0 then tail else pieces[0].Before(Lay(pieces[1..], tail))
  }

  ghost predicate ReadAs(pieces: seq<Piece>, tail: seq<byte>) {
    |pieces| == 0 || (pieces[0].ReadBefore(Lay(pieces[1..], tail)) && ReadAs(pieces[1..], tail))
  }

  function DataOf(pieces: seq<Piece>): seq<byte> {
    if |pieces| == 0 then [] else pieces[0].data + DataOf(pieces[1..])
  }

  /** A size whose end position does not fit an `unsigned long`, with o bytes decoded and room for more. */
  predicate Wraps(tail: seq<byte>, o: nat, outSize: nat) {
    o + 1 < outSize && o + Strtoul(tail).value >= ULONG
  }

  /** A size that asks, after it is cut to the room left, for more bytes than follow. */
  predicate RunsShort(tail: seq<byte>, o: nat, outSize: nat) {
    var size := Strtoul(tail);
    o + 1 < outSize && o + size.value < ULONG && Min(size.value, outSize - o - 1) > |AfterEol(tail[size.used..])|
  }

  lemma NoNumber(p: seq<byte>)
    requires |p| == 0 || p[0] == 0
    ensures Strtoul(p) == Numeral(0, 0)
  {
  }

  /** One copy leaves the output exactly when its size wraps, and the body exactly when it runs
      short. */
  lemma TurnEndsIff(p: seq<byte>, o: nat, outSize: nat)
    requires o < outSize < ULONG
    ensures NextTurn(p, o, outSize) == End(OverWrite) <==> Wraps(p, o, outSize)
    ensures NextTurn(p, o, outSize) == End(OverRead) <==> RunsShort(p, o, outSize)
  {
    if |p| == 0 || p[0] == 0 {
      NoNumber(p);
    }
  }

  lemma PieceTurn(c: Piece, after: seq<byte>, o: nat, outSize: nat)
    requires c.ReadBefore(after) && o + |c.data| < outSize < ULONG
    ensures NextTurn(c.Before(after), o, outSize) == Copy(c.data, after)
  {
    var p, q := c.Before(after), c.data + (c.eol' + after);
    if p[0] == 0 {
      NoNumber(p);
    }
    assert p[|c.size|..] == c.eol + q;
    assert q[..|c.data|] == c.data && q[|c.data|..] == c.eol' + after;
  }

  lemma PieceStep(c: Piece, after: seq<byte>, done: seq<byte>, outSize: nat)
    requires c.ReadBefore(after) && |done| + |c.data| < outSize < ULONG
    ensures Decode(c.Before(after), done, outSize) == Decode(after, done + c.data, outSize)
  {
    PieceTurn(c, after, |done|, outSize);
    OneTurn(c.Before(after), done, outSize, Copy(c.data, after));
  }

  lemma Joined(a: seq<byte>, b: seq<byte>, c: seq<byte>)
    ensures a + b + c == a + (b + c)
  {
  }

  lemma LayFirst(pieces: seq<Piece>, tail: seq<byte>)
    requires |pieces| > 0 && ReadAs(pieces, tail)
    ensures var after := Lay(pieces[1..], tail);
            && Lay(pieces, tail) == pieces[0].Before(after) && pieces[0].ReadBefore(after) && ReadAs(pieces[1..], tail)
            && DataOf(pieces) == pieces[0].data + DataOf(pieces[1..])
  {
  }

  /** Whole pieces that leave room are decoded, and the loop goes on behind them. */
  lemma {:induction false} PiecesDecode(pieces: seq<Piece>, tail: seq<byte>, done: seq<byte>, outSize: nat)
    requires ReadAs(pieces, tail) && |done| + |DataOf(pieces)| < outSize < ULONG
    ensures Decode(Lay(pieces, tail), done, outSize) == Decode(tail, done + DataOf(pieces), outSize)
    decreases |pieces|
  {
    if |pieces| == 0 {
      assert done + [] == done;
    } else {
      LayFirst(pieces, tail);
      PieceStep(pieces[0], Lay(pieces[1..], tail), done, outSize);
      PiecesDecode(pieces[1..], tail, done + pieces[0].data, outSize);
      Joined(done, pieces[0].data, DataOf(pieces[1..]));
    }
  }

  lemma SplitEol(s: seq<byte>) returns (eol: seq<byte>)
    ensures s == eol + AfterEol(s)
  {
    eol := s[..|s| - |AfterEol(s)|];
  }

  /** A turn that copies and leaves room copies as much as its size says. */
  lemma UncutTurn(p: seq<byte>, o: nat, outSize: nat)
    requires o < outSize < ULONG && NextTurn(p, o, outSize).Copy?
    requires o + |NextTurn(p, o, outSize).data| + 1 < outSize
    ensures var t, size := NextTurn(p, o, outSize), Strtoul(p);
            var q := AfterEol(p[size.used..]);
            && 0 < size.used && 0 < size.value == |t.data| <= |q|
            && t.data == q[..size.value] && t.rest == AfterEol(q[size.value..])
  {
  }

  lemma PieceOf(p: seq<byte>, c: Piece, rest: seq<byte>)
    requires |c.size| <= |p| && c.size == p[..|c.size|]
    requires p[|c.size|..] == c.eol + (c.data + (c.eol' + rest))
    ensures p == c.Before(rest)
  {
    assert p == p[..|c.size|] + p[|c.size|..];
  }

  /** So it has read one whole piece. */
  lemma TurnPiece(p: seq<byte>, o: nat, outSize: nat) returns (c: Piece)
    requires o < outSize < ULONG && NextTurn(p, o, outSize).Copy?
    requires o + |NextTurn(p, o, outSize).data| + 1 < outSize
    ensures var t := NextTurn(p, o, outSize);
            c.data == t.data && c.ReadBefore(t.rest) && p == c.Before(t.rest)
  {
    UncutTurn(p, o, outSize);
    var t, size := NextTurn(p, o, outSize), Strtoul(p);
    var data, rest := t.data, t.rest;
    var q := AfterEol(p[size.used..]);
    var eol := SplitEol(p[size.used..]);
    var eol' := SplitEol(q[|data|..]);
    assert q == data + (eol' + rest);
    c := Piece(p[..size.used], eol, data, eol');
    PieceOf(p, c, rest);
  }

  lemma LayOneMore(c: Piece, pieces: seq<Piece>, tail: seq<byte>)
    requires ReadAs(pieces, tail) && c.ReadBefore(Lay(pieces, tail))
    ensures Lay([c] + pieces, tail) == c.Before(Lay(pieces, tail)) && ReadAs([c] + pieces, tail)
    ensures DataOf([c] + pieces) == c.data + DataOf(pieces)
  {
    assert ([c] + pieces)[1..] == pieces;
  }

  /** A run that leaves a buffer has read whole pieces before the copy that does. */
  lemma {:induction false} TakeApart(p: seq<byte>, done: seq<byte>, outSize: nat) returns (pieces: seq<Piece>, tail: seq<byte>, o: nat)
    requires |done| < outSize < ULONG && Decode(p, done, outSize).ending != Inside
    ensures p == Lay(pieces, tail) && ReadAs(pieces, tail) && o == |done| + |DataOf(pieces)| < outSize
    ensures NextTurn(tail, o, outSize) == End(Decode(p, done, outSize).ending)
    decreases |p|
  {
    var t := NextTurn(p, |done|, outSize);
    OneTurn(p, done, outSize, t);
    if t.End? {
      pieces, tail, o := [], p, |done|;
    } else {
      if |done + t.data| + 1 >= outSize {
        Full(t.rest, done + t.data, outSize);
      }
      var c := TurnPiece(p, |done|, outSize);
      var more: seq<Piece>;
      more, tail, o := TakeApart(t.rest, done + t.data, outSize);
      LayOneMore(c, more, tail);
      pieces := [c] + more;
    }
  }

  ghost predicate OverWritesAt(p: seq<byte>, pieces: seq<Piece>, tail: seq<byte>, outSize: nat) {
    p == Lay(pieces, tail) && ReadAs(pieces, tail) && Wraps(tail, |DataOf(pieces)|, outSize)
  }

  ghost predicate OverReadsAt(p: seq<byte>, pieces: seq<Piece>, tail: seq<byte>, outSize: nat) {
    p == Lay(pieces, tail) && ReadAs(pieces, tail) && RunsShort(tail, |DataOf(pieces)|, outSize)
  }

  lemma WhereItLeaves(p: seq<byte>, outSize: nat) returns (pieces: seq<Piece>, tail: seq<byte>)
    requires 0 < outSize < ULONG && Decode(p, [], outSize).ending != Inside
    ensures Decode(p, [], outSize).ending == OverWrite ==> OverWritesAt(p, pieces, tail, outSize)
    ensures Decode(p, [], outSize).ending == OverRead ==> OverReadsAt(p, pieces, tail, outSize)
  {
    var o: nat;
    pieces, tail, o := TakeApart(p, [], outSize);
    TurnEndsIff(tail, o, outSize);
  }

  /** The loop writes behind the output buffer if and only if the body is whole pieces and then a
      size that wraps. */
  lemma OverWritesIff(p: seq<byte>, outSize: nat)
    requires 0 < outSize < ULONG
    ensures Decode(p, [], outSize).ending == OverWrite
            <==> exists pieces: seq<Piece>, tail: seq<byte> :: OverWritesAt(p, pieces, tail, outSize)
  {
    if Decode(p, [], outSize).ending == OverWrite {
      var pieces, tail := WhereItLeaves(p, outSize);
      assert OverWritesAt(p, pieces, tail, outSize);
    }
    if pieces: seq<Piece>, tail: seq<byte> :| OverWritesAt(p, pieces, tail, outSize) {
      PiecesThenOverWrite(p, pieces, tail, outSize);
    }
  }

  /** The loop reads behind the body if and only if the body is whole pieces and then a size that
      runs short. */
  lemma OverReadsIff(p: seq<byte>, outSize: nat)
    requires 0 < outSize < ULONG
    ensures Decode(p, [], outSize).ending == OverRead
            <==> exists pieces: seq<Piece>, tail: seq<byte> :: OverReadsAt(p, pieces, tail, outSize)
  {
    if Decode(p, [], outSize).ending == OverRead {
      var pieces, tail := WhereItLeaves(p, outSize);
      assert OverReadsAt(p, pieces, tail, outSize);
    }
    if pieces: seq<Piece>, tail: seq<byte> :| OverReadsAt(p, pieces, tail, outSize) {
      PiecesThenOverRead(p, pieces, tail, outSize);
    }
  }

  lemma PiecesThenOverWrite(p: seq<byte>, pieces: seq<Piece>, tail: seq<byte>, outSize: nat)
    requires outSize < ULONG && OverWritesAt(p, pieces, tail, outSize)
    ensures Decode(p, [], outSize).ending == OverWrite
  {
    PiecesDecode(pieces, tail, [], outSize);
    assert [] + DataOf(pieces) == DataOf(pieces);
    TurnEndsIff(tail, |DataOf(pieces)|, outSize);
    OneTurn(tail, DataOf(pieces), outSize, End(OverWrite));
  }

  lemma PiecesThenOverRead(p: seq<byte>, pieces: seq<Piece>, tail: seq<byte>, outSize: nat)
    requires outSize < ULONG && OverReadsAt(p, pieces, tail, outSize)
    ensures Decode(p, [], outSize).ending == OverRead
  {
    PiecesDecode(pieces, tail, [], outSize);
    assert [] + DataOf(pieces) == DataOf(pieces);
    TurnEndsIff(tail, |DataOf(pieces)|, outSize);
    OneTurn(tail, DataOf(pieces), outSize, End(OverRead));
  }

  /** A first chunk of one byte and then the size -1: the end position wraps to 0. */
  lemma NegativeSizeOverWrites(outSize: nat)
    requires 2 < outSize < ULONG
    ensures Decode([49, CR, LF, 120, CR, LF] + [45, 49, CR, LF], [], outSize) == Decoded([120], OverWrite)
  {
    var tail: seq<byte> := [45, 49, CR, LF];
    var c := Piece([49], [CR, LF], [120], [CR, LF]);
    assert c.Before(tail) == [49, CR, LF, 120, CR, LF] + tail;
    OneByteThenMinusOne(c, tail, outSize);
  }

  lemma OneByteThenMinusOne(c: Piece, tail: seq<byte>, outSize: nat)
    requires c == Piece([49], [CR, LF], [120], [CR, LF]) && tail == [45, 49, CR, LF] && 2 < outSize < ULONG
    ensures Decode(c.Before(tail), [], outSize) == Decoded([120], OverWrite)
  {
    OneByteChunk(tail);
    PieceStep(c, tail, [], outSize);
    assert [] + c.data == [120];
    WrapsAfterOne(tail, outSize);
  }

  lemma WrapsAfterOne(tail: seq<byte>, outSize: nat)
    requires tail == [45, 49, CR, LF] && 2 < outSize < ULONG
    ensures Decode(tail, [120], outSize) == Decoded([120], OverWrite)
  {
    MinusOne(tail);
    TurnEndsIff(tail, 1, outSize);
    OneTurn(tail, [120], outSize, End(OverWrite));
  }

  lemma MinusOne(tail: seq<byte>)
    requires tail == [45, 49, CR, LF]
    ensures Strtoul(tail) == Numeral(ULONG - 1, 2)
  {
    ReadNumeral([], [45], [], [49], 1, [CR, LF]);
    assert [] + ([45] + ([] + ([49] + [CR, LF]))) == tail;
  }

  lemma OneByteChunk(tail: seq<byte>)
    ensures Piece([49], [CR, LF], [120], [CR, LF]).ReadBefore(tail)
  {
    var q := [120] + ([CR, LF] + tail);
    ReadSize([49], 1, q);
    AfterCrLf(q);
    AfterCrLf(tail);
  }

  /** A response that ends inside its first chunk. */
  lemma CutBodyOverReads(outSize: nat)
    requires 6 < outSize < ULONG
    ensures Decode([53, CR, LF] + [97], [], outSize) == Decoded([], OverRead)
  {
    var p: seq<byte> := [53] + ([CR, LF] + [97]);
    ReadSize([53], 5, [97]);
    assert p[1..] == [CR, LF] + [97];
    AfterCrLf([97]);
    TurnEndsIff(p, 0, outSize);
    assert p == [53, CR, LF] + [97];
  }
}
