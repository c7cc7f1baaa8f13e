// The chunk framing of internal/protocol/protocol.go: ChunkWriter and
// ChunkReader over a byte stream that may be cut anywhere and that hands out
// as few bytes per read as it likes.

module Framing {
  import opened Basics

  const MAX_CHUNK: nat := 0x10_0000

  const TERMINATOR: seq<byte> := [0, 0, 0, 0]

  // ---------------------------------------------------------------- encoding

  function BigEndian(n: nat): seq<byte>
    requires n < 0x1_0000_0000
  {
    [n / 0x100_0000, n / 0x1_0000 % 0x100, n / 0x100 % 0x100, n % 0x100]
  }

  function FromBigEndian(b: seq<byte>): nat
    requires |b| == 4
  {
    (b[0] as int) * 0x100_0000 + (b[1] as int) * 0x1_0000 + (b[2] as int) * 0x100 + b[3]
  }

  lemma BigEndianRoundTrip(n: nat)
    requires n < 0x1_0000_0000
    ensures FromBigEndian(BigEndian(n)) == n
  {
    assert n / 0x1_0000 == n / 0x100 / 0x100;
    assert n / 0x100_0000 == n / 0x1_0000 / 0x100;
  }

  lemma FromBigEndianRoundTrip(b: seq<byte>)
    requires |b| == 4
    ensures FromBigEndian(b) < 0x1_0000_0000 && BigEndian(FromBigEndian(b)) == b
  {
    var n := FromBigEndian(b);
    var b0, b1, b2: int := b[0], b[1], b[2];
    assert n / 0x100_0000 == b0;
    assert n / 0x1_0000 == b0 * 0x100 + b1;
    assert n / 0x100 == b0 * 0x1_0000 + b1 * 0x100 + b2;
  }

  function Concat(cs: seq<seq<byte>>): seq<byte>
  {
    if cs == [] then [] else cs[0] + Concat(cs[1..])
  }

  lemma {:induction false} ConcatAppend(a: seq<seq<byte>>, b: seq<seq<byte>>)
    ensures Concat(a + b) == Concat(a) + Concat(b)
  {
    if a == [] {
      assert a + b == b;
    } else {
      assert (a + b)[1..] == a[1..] + b;
      ConcatAppend(a[1..], b);
    }
  }

  ghost predicate Sized(c: seq<byte>)
  {
    0 < |c| <= MAX_CHUNK
  }

  /** Chunks as the wire allows them. */
  ghost predicate WellSized(cs: seq<seq<byte>>)
  {
    forall i :: 0 <= i < |cs| ==> Sized(cs[i])
  }

  function Encode(cs: seq<seq<byte>>): seq<byte>
    requires forall i :: 0 <= i < |cs| ==> |cs[i]| < 0x1_0000_0000
  {
    if cs == [] then [] else BigEndian(|cs[0]|) + cs[0] + Encode(cs[1..])
  }

  /** A complete stream: the chunks, then the zero-length chunk. */
  function Framed(cs: seq<seq<byte>>): seq<byte>
    requires forall i :: 0 <= i < |cs| ==> |cs[i]| < 0x1_0000_0000
  {
    Encode(cs) + TERMINATOR
  }

  /** How one Write splits its argument. */
  function Chunks(p: seq<byte>): (cs: seq<seq<byte>>)
    ensures WellSized(cs) && Concat(cs) == p
    decreases |p|
  {
    if p == [] then []
    else
      var n := if |p| > MAX_CHUNK then MAX_CHUNK else |p|;
      var rest := Chunks(p[n..]);
      assert ([p[..n]] + rest)[1..] == rest;
      [p[..n]] + rest
  }

  function AllChunks(writes: seq<seq<byte>>): (cs: seq<seq<byte>>)
    ensures WellSized(cs) && Concat(cs) == Concat(writes)
  {
    if writes == [] then []
    else
      ConcatAppend(Chunks(writes[0]), AllChunks(writes[1..]));
      Chunks(writes[0]) + AllChunks(writes[1..])
  }

  // ------------------------------------------------------------------ writing

  /** A connection that accepts room more bytes and then breaks. */
  class Sink {
    var data: seq<byte>
    var room: nat

    constructor (capacity: nat)
      ensures data == [] && room == capacity
    {
      data, room := [], capacity;
    }

    method Write(b: seq<byte>) returns (ok: bool)
      modifies this
      ensures ok <==> |b| <= old(room)
      ensures data == old(data) + (if ok then b else b[..old(room)])
      ensures room == if ok then old(room) - |b| else 0
    {
      ok := |b| <= room;
      if ok {
        data, room := data + b, room - |b|;
      } else {
        data, room := data + b[..room], 0;
      }
    }
  }

  function Cut(b: seq<byte>, room: nat): seq<byte>
  {
    if |b| <= room then b else b[..room]
  }

  lemma WholeFits(b: seq<byte>, room: nat)
    ensures |b| <= room ==> Cut(b, room) == b
  {
  }

  lemma CutInside(a: seq<byte>, b: seq<byte>, c: seq<byte>, room: nat)
    requires |a| <= room < |a| + |b|
    ensures Cut(a + b + c, room) == a + b[..room - |a|]
  {
  }

  lemma HeaderLength(n: nat)
    requires n < 0x1_0000_0000
    ensures |BigEndian(n)| == 4
  {
  }

  lemma NothingLeft()
    ensures Encode(Chunks([])) == []
  {
  }

  lemma NextChunk(p: seq<byte>)
    requires p != []
    ensures var n := if |p| > MAX_CHUNK then MAX_CHUNK else |p|;
            Encode(Chunks(p)) == BigEndian(n) + p[..n] + Encode(Chunks(p[n..]))
  {
    var n := if |p| > MAX_CHUNK then MAX_CHUNK else |p|;
    assert Chunks(p)[1..] == Chunks(p[n..]);
  }

  lemma Regroup(a: seq<byte>, b: seq<byte>, c: seq<byte>, d: seq<byte>)
    ensures a + (b + c + d) == a + b + (c + d) == (a + b) + c + d == (a + b + c) + d
  {
  }

  class ChunkWriter {
    const w: Sink

    constructor (sink: Sink)
      ensures w == sink
    {
      w := sink;
    }

    /** Frames p; on a broken connection a prefix of the framing got out, and n
        counts the whole chunks sent. */
    method Write(p: seq<byte>) returns (n: nat, ok: bool)
      modifies w
      ensures ok <==> |Encode(Chunks(p))| <= old(w.room)
      ensures w.data == old(w.data) + Cut(Encode(Chunks(p)), old(w.room))
      ensures ok ==> n == |p| && w.room == old(w.room) - |Encode(Chunks(p))|
      ensures !ok ==> n < |p| && w.room == 0
    {
      hide Encode, Chunks, Cut, BigEndian;
      n, ok := 0, true;
      var rest := p;
      ghost var sent: seq<byte> := [];
      WholeFits(Encode(Chunks(p)), w.room);
      NothingLeft();
      while |rest| > 0
        invariant n + |rest| == |p|
        invariant sent + Encode(Chunks(rest)) == Encode(Chunks(p))
        invariant |sent| <= old(w.room) && w.room == old(w.room) - |sent|
        invariant w.data == old(w.data) + sent
        decreases |rest|
      {
        var size := |rest|;
        if size > MAX_CHUNK {
          size := MAX_CHUNK;
        }
        var header := BigEndian(size);
        ghost var tail := Encode(Chunks(rest[size..]));
        NextChunk(rest);
        assert |header| == 4 by { HeaderLength(size); }
        Regroup(sent, header, rest[..size], tail);
        ok := w.Write(header);
        if !ok {
          CutInside(sent, header, rest[..size] + tail, old(w.room));
          return;
        }
        ok := w.Write(rest[..size]);
        if !ok {
          CutInside(sent + header, rest[..size], tail, old(w.room));
          return;
        }
        sent := sent + header + rest[..size];
        rest := rest[size..];
        n := n + size;
      }
      assert rest == [];
    }

    /** The terminating zero-length chunk. */
    method Close() returns (ok: bool)
      modifies w
      ensures ok <==> 4 <= old(w.room)
      ensures w.data == old(w.data) + Cut(TERMINATOR, old(w.room))
    {
      ok := w.Write(TERMINATOR);
    }
  }

  lemma {:induction false} EncodeAppend(a: seq<seq<byte>>, b: seq<seq<byte>>)
    requires WellSized(a) && WellSized(b)
    ensures WellSized(a + b) && Encode(a + b) == Encode(a) + Encode(b)
  {
    WellSizedAppend(a, b);
    if a == [] {
      assert a + b == b;
    } else {
      assert (a + b)[1..] == a[1..] + b && (a + b)[0] == a[0];
      EncodeAppend(a[1..], b);
      hide Encode;
      EncodeHead(a);
      EncodeHead(a + b);
    }
  }

  lemma WellSizedAppend(a: seq<seq<byte>>, b: seq<seq<byte>>)
    requires WellSized(a) && WellSized(b)
    ensures WellSized(a + b)
  {
  }

  lemma EncodeHead(a: seq<seq<byte>>)
    requires WellSized(a) && a != []
    ensures WellSized(a[1..]) && Encode(a) == BigEndian(|a[0]|) + a[0] + Encode(a[1..])
  {
  }

  /** The first of several writes, on the wire. */
  lemma FramedHeadWrite(writes: seq<seq<byte>>)
    requires writes != []
    ensures Framed(AllChunks(writes)) == Encode(Chunks(writes[0])) + Framed(AllChunks(writes[1..]))
  {
    hide Encode, Chunks, AllChunks;
    AllChunksHead(writes);
    EncodeAppend(Chunks(writes[0]), AllChunks(writes[1..]));
    var a, b := Encode(Chunks(writes[0])), Encode(AllChunks(writes[1..]));
    assert (a + b) + TERMINATOR == a + (b + TERMINATOR);
  }

  lemma AllChunksHead(writes: seq<seq<byte>>)
    requires writes != []
    ensures WellSized(Chunks(writes[0])) && WellSized(AllChunks(writes[1..])) && WellSized(AllChunks(writes))
    ensures AllChunks(writes) == Chunks(writes[0]) + AllChunks(writes[1..])
  {
  }

  lemma NoWrites()
    ensures Framed(AllChunks([])) == TERMINATOR
  {
  }

  /** Any sequence of writes and then Close: what goes out is the framing of all
      of it, or, on a connection that breaks, the prefix of that which fits. */
  method Send(sink: Sink, writes: seq<seq<byte>>) returns (ok: bool)
    modifies sink
    ensures sink.data == old(sink.data) + Cut(Framed(AllChunks(writes)), old(sink.room))
    ensures ok <==> |Framed(AllChunks(writes))| <= old(sink.room)
  {
    hide Encode, Chunks, AllChunks, Framed, Cut;
    var cw := new ChunkWriter(sink);
    ghost var all := Framed(AllChunks(writes));
    ghost var sent: seq<byte> := [];
    assert writes[0..] == writes;
    for i := 0 to |writes|
      invariant sent + Framed(AllChunks(writes[i..])) == all
      invariant |sent| <= old(sink.room) && sink.room == old(sink.room) - |sent|
      invariant sink.data == old(sink.data) + sent
    {
      ghost var piece, rest := Encode(Chunks(writes[i])), Framed(AllChunks(writes[i + 1..]));
      assert writes[i..][0] == writes[i] && writes[i..][1..] == writes[i + 1..];
      FramedHeadWrite(writes[i..]);
      assert all == sent + piece + rest;
      var n;
      n, ok := cw.Write(writes[i]);
      if !ok {
        CutSooner(sent, piece, rest, old(sink.room));
        return;
      }
      WholeFits(piece, old(sink.room) - |sent|);
      sent := sent + piece;
    }
    assert writes[|writes|..] == [];
    NoWrites();
    ok := cw.Close();
    CutSooner(sent, TERMINATOR, [], old(sink.room));
    assert all == sent + TERMINATOR + [];
  }

  /** Cutting after what has been sent is cutting what comes next. */
  lemma CutSooner(a: seq<byte>, b: seq<byte>, c: seq<byte>, room: nat)
    requires |a| <= room && (|b| > room - |a| || c == [])
    ensures Cut(a + b + c, room) == a + Cut(b, room - |a|)
  {
  }

  // ------------------------------------------------------------------ reading

  datatype ReadError =
    | NoError
    | EOF                  // bare io.EOF: what io.Copy takes for a clean end
    | UnexpectedEOF
    | HeaderEOF            // io.EOF wrapped: not a clean end to io.Copy
    | HeaderUnexpectedEOF
    | ChunkTooBig
    | PayloadTooLarge

  /** input is what the transport will still deliver before it ends. */
  datatype Reader = Reader(input: seq<byte>, remaining: nat, done: bool, total: nat)

  /** How one call reads: the buffer size, and how many bytes the transport is
      willing to hand over at once. */
  datatype Call = Call(size: nat, grant: nat)

  datatype ReadResult = ReadResult(r: Reader, out: seq<byte>, err: ReadError)

  /** What the transport hands over: at least one byte if it has any. */
  function Granted(c: Call, remaining: nat, available: nat): nat
  {
    var most := if c.size < remaining then c.size else remaining;
    var got := if available < most then available else most;
    if 1 <= c.grant < got then c.grant else if c.grant == 0 && got > 0 then 1 else got
  }

  /** ChunkReader.Read once a chunk is open. An eager transport reports EOF
      together with its last bytes. */
  function ReadBody(r: Reader, c: Call, maxTotal: int, eager: bool): ReadResult
    requires r.remaining > 0
  {
    if r.remaining + r.total > maxTotal then ReadResult(r, [], PayloadTooLarge)
    else if c.size == 0 then ReadResult(r, [], NoError)
    else if r.input == [] then ReadResult(r, [], UnexpectedEOF)
    else
      var n := Granted(c, r.remaining, |r.input|);
      var after := Reader(r.input[n..], r.remaining - n, false, r.total + n);
      var err := if eager && after.input == [] then (if after.remaining > 0 then UnexpectedEOF else EOF) else NoError;
      ReadResult(after, r.input[..n], err)
  }

  function ReadStep(r: Reader, c: Call, maxTotal: int, eager: bool): ReadResult
  {
    if r.done then ReadResult(r, [], EOF)
    else if r.remaining > 0 then ReadBody(r, c, maxTotal, eager)
    else if r.input == [] then ReadResult(r, [], HeaderEOF)
    else if |r.input| < 4 then ReadResult(r.(input := []), [], HeaderUnexpectedEOF)
    else
      var n := FromBigEndian(r.input[..4]);
      var after := r.(input := r.input[4..]);
      if n == 0 then ReadResult(after.(done := true), [], EOF)
      else if n > MAX_CHUNK then ReadResult(after, [], ChunkTooBig)
      else ReadBody(after.(remaining := n), c, maxTotal, eager)
  }

  class ChunkReader {
    var input: seq<byte>
    var remaining: nat
    var done: bool
    var total: nat
    const maxTotal: int
    const eager: bool

    constructor (stream: seq<byte>, max: int, eagerEOF: bool)
      ensures View() == Reader(stream, 0, false, 0) && maxTotal == max && eager == eagerEOF
    {
      input, remaining, done, total := stream, 0, false, 0;
      maxTotal, eager := max, eagerEOF;
    }

    function View(): Reader
      reads this
    {
      Reader(input, remaining, done, total)
    }

    method Read(c: Call) returns (out: seq<byte>, err: ReadError)
      modifies this
      ensures ReadResult(View(), out, err) == ReadStep(old(View()), c, maxTotal, eager)
    {
      if done {
        return [], EOF;
      }
      if remaining == 0 {
        if |input| == 0 {
          return [], HeaderEOF;
        }
        if |input| < 4 {
          input := [];
          return [], HeaderUnexpectedEOF;
        }
        var n := FromBigEndian(input[..4]);
        input := input[4..];
        if n == 0 {
          done := true;
          return [], EOF;
        }
        if n > MAX_CHUNK {
          return [], ChunkTooBig;
        }
        remaining := n;
      }
      if remaining + total > maxTotal {
        return [], PayloadTooLarge;
      }
      if c.size == 0 {
        return [], NoError;
      }
      if input == [] {
        return [], UnexpectedEOF;
      }
      var n := Granted(c, remaining, |input|);
      out, input := input[..n], input[n..];
      remaining := remaining - n;
      total := total + n;
      err := NoError;
      if eager && input == [] {
        err := EOF;
        if remaining > 0 {
          err := UnexpectedEOF;
        }
      }
    }
  }

  /** io.Copy: read until the first error, keeping what came before and with
      it. With a script that runs out first, err is NoError. */
  function Copy(r: Reader, script: seq<Call>, maxTotal: int, eager: bool): ReadResult
    decreases |script|
  {
    if script == [] then ReadResult(r, [], NoError)
    else
      var first := ReadStep(r, script[0], maxTotal, eager);
      if first.err != NoError then first
      else
        var rest := Copy(first.r, script[1..], maxTotal, eager);
        rest.(out := first.out + rest.out)
  }

  /** io.Copy as a loop over a ChunkReader. */
  method CopyAll(cr: ChunkReader, script: seq<Call>) returns (out: seq<byte>, err: ReadError)
    modifies cr
    ensures ReadResult(cr.View(), out, err) == Copy(old(cr.View()), script, cr.maxTotal, cr.eager)
  {
    hide ReadStep, Copy;
    out, err := [], NoError;
    assert script[0..] == script;
    ghost var whole := Copy(cr.View(), script, cr.maxTotal, cr.eager);
    for i := 0 to |script|
      invariant var rest := Copy(cr.View(), script[i..], cr.maxTotal, cr.eager);
                whole == rest.(out := out + rest.out)
    {
      assert script[i..][0] == script[i] && script[i..][1..] == script[i + 1..];
      CopyUnfolds(cr.View(), script[i..], cr.maxTotal, cr.eager);
      var got;
      got, err := cr.Read(script[i]);
      out := out + got;
      if err != NoError {
        return;
      }
    }
    assert script[|script|..] == [];
    CopyNothing(cr.View(), cr.maxTotal, cr.eager);
    err := NoError;
  }

  lemma CopyNothing(r: Reader, maxTotal: int, eager: bool)
    ensures Copy(r, [], maxTotal, eager) == ReadResult(r, [], NoError)
  {
  }

  /** No call of the script has an empty buffer. */
  ghost predicate NonEmptyBuffers(script: seq<Call>)
  {
    forall i :: 0 <= i < |script| ==> script[i].size > 0
  }

  /** What a header announces decides the read: nothing ends the stream, up to
      one MiB opens a chunk if the cap allows it, and more is refused. */
  lemma HeaderDecides(input: seq<byte>, total: nat, c: Call, maxTotal: int, eager: bool)
    requires |input| > 4 && c.size > 0
    ensures var n := FromBigEndian(input[..4]);
            var r := ReadStep(Reader(input, 0, false, total), c, maxTotal, eager);
            && (n == 0 <==> r.r.done) && (n == 0 ==> r.err == EOF && r.out == [] && r.r.input == input[4..])
            && (r.err == ChunkTooBig <==> n > 1024 * 1024)
            && (r.err == PayloadTooLarge <==> 0 < n <= 1024 * 1024 && n + total > maxTotal)
            && (r.out != [] <==> 0 < n <= 1024 * 1024 && n + total <= maxTotal)
            && (r.out != [] ==>
                  && r.out <= input[4..] && |r.out| <= n && |r.out| <= c.size
                  && r.r.remaining == n - |r.out| && r.r.total == total + |r.out|)
  {
  }

  /** After the end every read ends, and takes nothing more off the transport. */
  lemma DoneStaysDone(r: Reader, c: Call, maxTotal: int, eager: bool)
    ensures r.done ==> ReadStep(r, c, maxTotal, eager) == ReadResult(r, [], EOF)
  {
  }

  /** The largest chunk, and the first that is too large, byte for byte. */
  lemma OneMiBIsTheLimit(rest: seq<byte>, maxTotal: int)
    requires rest != [] && maxTotal >= 1024 * 1024
    ensures var c := Call(1, 1);
            && ReadStep(Reader([0, 16, 0, 0] + rest, 0, false, 0), c, maxTotal, false).out == [rest[0]]
            && ReadStep(Reader([0, 16, 0, 1] + rest, 0, false, 0), c, maxTotal, false).err == ChunkTooBig
  {
    var a, b := [0, 16, 0, 0] + rest, [0, 16, 0, 1] + rest;
    assert a[..4] == [0, 16, 0, 0] && b[..4] == [0, 16, 0, 1] && a[4..] == rest;
  }

  /** A write is cut as seldom as it can be: every chunk but the last is one MiB. */
  lemma {:induction false} ChunksAreFull(p: seq<byte>, i: nat)
    requires i < |Chunks(p)|
    ensures |Chunks(p)[i]| == if i < |Chunks(p)| - 1 then 1024 * 1024 else |p| - i * (1024 * 1024)
    ensures (|Chunks(p)| - 1) * (1024 * 1024) < |p| <= |Chunks(p)| * (1024 * 1024)
    decreases |p|
  {
    var n := if |p| > MAX_CHUNK then MAX_CHUNK else |p|;
    assert Chunks(p)[1..] == Chunks(p[n..]);
    if |p| > MAX_CHUNK {
      ChunksAreFull(p[n..], if i == 0 then 0 else i - 1);
    }
  }

  // ----------------------------------------------------- clean ends are exact

  /** What a clean end proves about the input: the rest of the open chunk and
      whole chunks were delivered, followed by the terminator; or, on an eager
      transport only, the stream stopped at a chunk boundary without it. */
  ghost predicate CleanEnd(r: Reader, end: ReadResult, cur: seq<byte>, cs: seq<seq<byte>>, maxTotal: int, eager: bool)
  {
    && |cur| == r.remaining && WellSized(cs)
    && end.out == cur + Concat(cs)
    && end.r.total == r.total + |end.out|
    && (end.out != [] ==> end.r.total <= maxTotal)
    && (|| r.input == cur + Framed(cs) + end.r.input
        || (eager && end.out != [] && r.input == cur + Encode(cs) && end.r.input == []))
  }

  /** Reading a header and then reading is reading the opened chunk. */
  lemma OpenHeader(r: Reader, script: seq<Call>, maxTotal: int, eager: bool)
    requires !r.done && r.remaining == 0 && |r.input| >= 4 && script != []
    requires 0 < FromBigEndian(r.input[..4]) <= MAX_CHUNK
    ensures var body := Reader(r.input[4..], FromBigEndian(r.input[..4]), false, r.total);
            && Copy(r, script, maxTotal, eager) == Copy(body, script, maxTotal, eager)
            && r.input == BigEndian(body.remaining) + body.input
  {
    FromBigEndianRoundTrip(r.input[..4]);
    assert r.input == r.input[..4] + r.input[4..];
  }

  lemma CopyUnfolds(r: Reader, script: seq<Call>, maxTotal: int, eager: bool)
    requires script != []
    ensures var first := ReadStep(r, script[0], maxTotal, eager);
            Copy(r, script, maxTotal, eager) ==
            if first.err != NoError then first
            else var rest := Copy(first.r, script[1..], maxTotal, eager); rest.(out := first.out + rest.out)
  {
  }

  lemma {:induction false} CleanEndIsComplete(r: Reader, script: seq<Call>, maxTotal: int, eager: bool)
    returns (cur: seq<byte>, cs: seq<seq<byte>>)
    requires !r.done && Copy(r, script, maxTotal, eager).err == EOF
    ensures CleanEnd(r, Copy(r, script, maxTotal, eager), cur, cs, maxTotal, eager)
    decreases |script|, r.remaining == 0
  {
    assert script != [];
    CopyUnfolds(r, script, maxTotal, eager);
    hide Copy, CleanEnd;
    var end := Copy(r, script, maxTotal, eager);
    var first := ReadStep(r, script[0], maxTotal, eager);
    if r.remaining > 0 {
      BodyRead(r, script[0], maxTotal, eager);
      hide ReadStep;
      if first.err == NoError {
        cur, cs := CleanEndIsComplete(first.r, script[1..], maxTotal, eager);
        BodyThenRest(r, first, Copy(first.r, script[1..], maxTotal, eager), cur, cs, maxTotal, eager);
        cur := first.out + cur;
      } else {
        cur, cs := first.out, [];
        BodyEnds(r, end, maxTotal);
      }
    } else {
      HeaderRead(r, script[0], maxTotal, eager);
      var size := FromBigEndian(r.input[..4]);
      if size == 0 {
        cur, cs := [], [];
      } else {
        OpenHeader(r, script, maxTotal, eager);
        var body := Reader(r.input[4..], size, false, r.total);
        hide ReadStep;
        cur, cs := CleanEndIsComplete(body, script, maxTotal, eager);
        HeaderThenBody(r, body, end, cur, cs, maxTotal, eager);
        cur, cs := [], [cur] + cs;
      }
    }
  }

  lemma HeaderRead(r: Reader, c: Call, maxTotal: int, eager: bool)
    requires !r.done && r.remaining == 0 && ReadStep(r, c, maxTotal, eager).err in {NoError, EOF}
    ensures |r.input| >= 4 && FromBigEndian(r.input[..4]) <= MAX_CHUNK
    ensures FromBigEndian(r.input[..4]) == 0 ==>
              CleanEnd(r, ReadStep(r, c, maxTotal, eager), [], [], maxTotal, eager)
  {
    FromBigEndianRoundTrip(r.input[..4]);
    assert BigEndian(0) == TERMINATOR;
    if FromBigEndian(r.input[..4]) == 0 {
      assert r.input == r.input[..4] + r.input[4..];
      assert r.input == [] + Framed([]) + r.input[4..];
    }
  }

  lemma BodyEnds(r: Reader, end: ReadResult, maxTotal: int)
    requires r.input == end.out && end.r.input == [] && |end.out| == r.remaining && end.out != []
    requires end.r.total == r.total + |end.out| <= maxTotal
    ensures CleanEnd(r, end, end.out, [], maxTotal, true)
  {
    assert end.out + Encode([]) == end.out && end.out + Concat([]) == end.out;
  }

  lemma HeaderThenBody(
    r: Reader, body: Reader, end: ReadResult, c: seq<byte>, cs: seq<seq<byte>>, maxTotal: int, eager: bool)
    requires r.remaining == 0 && 0 < body.remaining <= MAX_CHUNK && r.total == body.total
    requires r.input == BigEndian(body.remaining) + body.input
    requires CleanEnd(body, end, c, cs, maxTotal, eager)
    ensures CleanEnd(r, end, [], [c] + cs, maxTotal, eager)
  {
    assert Sized(c);
    FirstChunk(c, cs, end.r.input);
    var all := [c] + cs;
    assert [] + Concat(all) == Concat(all) && [] + Encode(all) == Encode(all);
    assert [] + Framed(all) + end.r.input == Framed(all) + end.r.input;
  }

  /** One read of an open chunk takes its bytes off the front. */
  lemma BodyRead(r: Reader, c: Call, maxTotal: int, eager: bool)
    requires !r.done && r.remaining > 0
    ensures var first := ReadStep(r, c, maxTotal, eager);
            && first.err in {NoError, EOF, UnexpectedEOF, PayloadTooLarge}
            && r.input == first.out + first.r.input && !first.r.done
            && |first.out| + first.r.remaining == r.remaining && first.r.total == r.total + |first.out|
            && (first.err in {NoError, EOF} && first.out != [] ==> r.total + r.remaining <= maxTotal)
            && (first.err == EOF ==> eager && first.out != [] && first.r.input == [] && first.r.remaining == 0)
            && (first.err == NoError && r.remaining + r.total > maxTotal ==> false)
  {
  }

  lemma BodyThenRest(
    r: Reader, first: ReadResult, rest: ReadResult, cur: seq<byte>, cs: seq<seq<byte>>, maxTotal: int, eager: bool)
    requires r.input == first.out + first.r.input && first.r.total == r.total + |first.out|
    requires |first.out| + first.r.remaining == r.remaining && r.total + r.remaining <= maxTotal
    requires CleanEnd(first.r, rest, cur, cs, maxTotal, eager)
    ensures CleanEnd(r, rest.(out := first.out + rest.out), first.out + cur, cs, maxTotal, eager)
  {
    var o := first.out;
    assert o + (cur + Concat(cs)) == (o + cur) + Concat(cs);
    assert o + (cur + Framed(cs) + rest.r.input) == (o + cur) + Framed(cs) + rest.r.input;
    assert o + (cur + Encode(cs)) == (o + cur) + Encode(cs);
  }

  lemma FirstChunk(c: seq<byte>, cs: seq<seq<byte>>, tail: seq<byte>)
    requires Sized(c) && WellSized(cs)
    ensures WellSized([c] + cs) && Concat([c] + cs) == c + Concat(cs)
    ensures Encode([c] + cs) == BigEndian(|c|) + (c + Encode(cs))
    ensures Framed([c] + cs) + tail == BigEndian(|c|) + (c + Framed(cs) + tail)
  {
    assert ([c] + cs)[1..] == cs;
  }

  /** Whatever the peer sends: when io.Copy ends cleanly on a transport that
      reports EOF by itself, the bytes consumed are exactly one complete framing
      of the bytes delivered, which are within the cap. */
  lemma CleanCopyIsExact(input: seq<byte>, script: seq<Call>, maxTotal: int) returns (cs: seq<seq<byte>>)
    requires Copy(Reader(input, 0, false, 0), script, maxTotal, false).err == EOF
    ensures var end := Copy(Reader(input, 0, false, 0), script, maxTotal, false);
            && WellSized(cs) && input == Framed(cs) + end.r.input
            && end.out == Concat(cs) && end.r.total == |end.out|
            && (end.out != [] ==> |end.out| <= maxTotal)
  {
    var cur;
    cur, cs := CleanEndIsComplete(Reader(input, 0, false, 0), script, maxTotal, false);
    assert cur == [];
    assert [] + Framed(cs) == Framed(cs) && [] + Concat(cs) == Concat(cs);
  }

  // ------------------------------------------------------- unique decoding

  /** No complete stream is a proper prefix of another: the framing decodes in
      one way only. */
  lemma {:induction false} FramedIsPrefixFree(a: seq<seq<byte>>, x: seq<byte>, b: seq<seq<byte>>, y: seq<byte>)
    requires WellSized(a) && WellSized(b) && Framed(a) + x == Framed(b) + y
    ensures a == b && x == y
    decreases |a| + |b|
  {
    FramedHead(a, x);
    FramedHead(b, y);
    var s := Framed(a) + x;
    if a == [] || b == [] {
      assert BigEndian(0) == TERMINATOR;
      assert a == [] && b == [];
      assert x == s[4..] && y == s[4..];
    } else {
      var n := |a[0]|;
      assert n == FromBigEndian(s[..4]) == |b[0]|;
      assert a[0] == s[4..4 + n] == b[0];
      assert Framed(a[1..]) + x == s[4 + n..] == Framed(b[1..]) + y;
      FramedIsPrefixFree(a[1..], x, b[1..], y);
      assert a == [a[0]] + a[1..] && b == [b[0]] + b[1..];
    }
  }

  lemma FramedHead(a: seq<seq<byte>>, x: seq<byte>)
    requires WellSized(a)
    ensures var s := Framed(a) + x;
            && |s| >= 4
            && FromBigEndian(s[..4]) == (if a == [] then 0 else |a[0]|)
            && (a == [] ==> s[4..] == x)
            && (a != [] ==> |s| >= 4 + |a[0]| && s[4..4 + |a[0]|] == a[0] && s[4 + |a[0]|..] == Framed(a[1..]) + x)
  {
    var s := Framed(a) + x;
    if a != [] {
      BigEndianRoundTrip(|a[0]|);
      assert Sized(a[0]);
      assert s == BigEndian(|a[0]|) + a[0] + (Framed(a[1..]) + x);
      assert s[..4] == BigEndian(|a[0]|);
    } else {
      assert s == TERMINATOR + x;
      assert s[..4] == TERMINATOR;
    }
  }

  /** A stream cut anywhere before its end never ends cleanly. */
  lemma TruncationIsDetected(cs: seq<seq<byte>>, cut: nat, script: seq<Call>, maxTotal: int)
    requires WellSized(cs) && cut < |Framed(cs)|
    ensures Copy(Reader(Framed(cs)[..cut], 0, false, 0), script, maxTotal, false).err != EOF
  {
    hide Copy, Encode, BigEndian;
    var input := Framed(cs)[..cut];
    var end := Copy(Reader(input, 0, false, 0), script, maxTotal, false);
    if end.err == EOF {
      var got := CleanCopyIsExact(input, script, maxTotal);
      hide Framed;
      var rest := end.r.input + Framed(cs)[cut..];
      assert Framed(cs) == input + Framed(cs)[cut..];
      assert Framed(got) + rest == Framed(cs) + [];
      FramedIsPrefixFree(got, rest, cs, []);
      assert false;
    }
  }

  // ------------------------------------------------------ delivery and the cap

  /** The whole chunks that fit the cap after total bytes. */
  function Within(cs: seq<seq<byte>>, total: nat, maxTotal: int): seq<byte>
  {
    if cs == [] || total + |cs[0]| > maxTotal then []
    else cs[0] + Within(cs[1..], total + |cs[0]|, maxTotal)
  }

  predicate AllFit(cs: seq<seq<byte>>, total: nat, maxTotal: int)
  {
    cs == [] || (total + |cs[0]| <= maxTotal && AllFit(cs[1..], total + |cs[0]|, maxTotal))
  }

  /** Within is the longest whole-chunk prefix that fits; AllFit says it is everything. */
  lemma {:induction false} WithinIsLongest(cs: seq<seq<byte>>, total: nat, maxTotal: int) returns (k: nat)
    ensures k <= |cs| && Within(cs, total, maxTotal) == Concat(cs[..k])
    ensures k > 0 ==> total + |Concat(cs[..k])| <= maxTotal
    ensures k < |cs| ==> total + |Concat(cs[..k + 1])| > maxTotal
    ensures AllFit(cs, total, maxTotal) <==> k == |cs|
    decreases |cs|
  {
    if cs == [] || total + |cs[0]| > maxTotal {
      k := 0;
      if cs != [] {
        assert cs[..1] == [cs[0]];
        assert Concat([cs[0]]) == cs[0] + [];
      }
    } else {
      var j := WithinIsLongest(cs[1..], total + |cs[0]|, maxTotal);
      k := j + 1;
      assert cs[..k][1..] == cs[1..][..j];
      if k < |cs| {
        assert cs[..k + 1][1..] == cs[1..][..j + 1];
      }
    }
  }

  lemma {:induction false} SmallEnoughFits(cs: seq<seq<byte>>, total: nat, maxTotal: int)
    requires total + |Concat(cs)| <= maxTotal
    ensures AllFit(cs, total, maxTotal) && Within(cs, total, maxTotal) == Concat(cs)
    decreases |cs|
  {
    if cs != [] {
      SmallEnoughFits(cs[1..], total + |cs[0]|, maxTotal);
    }
  }

  /** The reader sits in a complete stream: the rest of an open chunk that fits
      the cap, then whole chunks, the terminator and whatever follows. */
  ghost predicate InStream(r: Reader, cur: seq<byte>, cs: seq<seq<byte>>, tail: seq<byte>, maxTotal: int)
  {
    && !r.done && r.remaining == |cur| && WellSized(cs)
    && r.input == cur + Framed(cs) + tail
    && (cur != [] ==> r.total + |cur| <= maxTotal)
  }

  /** Every later read of a reader past its cap reports the cap and no data. */
  ghost predicate OverCap(r: Reader, maxTotal: int)
  {
    !r.done && r.remaining > 0 && r.remaining + r.total > maxTotal
  }

  lemma OverCapStays(r: Reader, c: Call, maxTotal: int, eager: bool)
    requires OverCap(r, maxTotal)
    ensures ReadStep(r, c, maxTotal, eager) == ReadResult(r, [], PayloadTooLarge)
  {
  }

  /** Where a copy of a complete stream can be when its script ends. */
  ghost predicate Delivery(
    end: ReadResult, calls: nat, total: nat, cur: seq<byte>, cs: seq<seq<byte>>, tail: seq<byte>, maxTotal: int)
  {
    var all := cur + Within(cs, total + |cur|, maxTotal);
    var fits := AllFit(cs, total + |cur|, maxTotal);
    && end.out <= all && end.r.total == total + |end.out|
    && match end.err
       case NoError => calls <= |end.out|
       case EOF => fits && end.out == all && end.r.input == tail && end.r.done
       case PayloadTooLarge => !fits && end.out == all && OverCap(end.r, maxTotal)
       case _ => false
  }

  lemma {:induction false} StreamIsDelivered(
    r: Reader, cur: seq<byte>, cs: seq<seq<byte>>, tail: seq<byte>, script: seq<Call>, maxTotal: int, eager: bool)
    requires InStream(r, cur, cs, tail, maxTotal) && NonEmptyBuffers(script)
    ensures Delivery(Copy(r, script, maxTotal, eager), |script|, r.total, cur, cs, tail, maxTotal)
    decreases |script|, cur == []
  {
    hide ReadStep, InStream, Framed, Copy, Delivery, Within;
    if script == [] {
      NotYetDelivered(r, cur, cs, tail, maxTotal, eager);
    } else if cur == [] {
      AtHeader(r, cs, tail, script, maxTotal, eager);
    } else {
      BodyStep(r, cur, cs, tail, script[0], maxTotal, eager);
      CopyUnfolds(r, script, maxTotal, eager);
      BuffersTail(script);
      var first := ReadStep(r, script[0], maxTotal, eager);
      var n := |first.out|;
      StreamIsDelivered(first.r, cur[n..], cs, tail, script[1..], maxTotal, eager);
      DeliveryAfter(Copy(first.r, script[1..], maxTotal, eager), |script| - 1, r.total, cur, n, cs, tail, maxTotal);
    }
  }

  lemma NotYetDelivered(
    r: Reader, cur: seq<byte>, cs: seq<seq<byte>>, tail: seq<byte>, maxTotal: int, eager: bool)
    ensures Delivery(Copy(r, [], maxTotal, eager), 0, r.total, cur, cs, tail, maxTotal)
  {
  }

  lemma BuffersTail(script: seq<Call>)
    requires NonEmptyBuffers(script) && script != []
    ensures NonEmptyBuffers(script[1..]) && script[0].size > 0
  {
  }

  /** One read inside an open chunk that fits. */
  lemma BodyStep(
    r: Reader, cur: seq<byte>, cs: seq<seq<byte>>, tail: seq<byte>, c: Call, maxTotal: int, eager: bool)
    requires InStream(r, cur, cs, tail, maxTotal) && cur != [] && c.size > 0
    ensures var first := ReadStep(r, c, maxTotal, eager);
            var n := |first.out|;
            && first.err == NoError && 1 <= n <= |cur| && first.out == cur[..n] && first.r.total == r.total + n
            && InStream(first.r, cur[n..], cs, tail, maxTotal)
  {
    var first := ReadStep(r, c, maxTotal, eager);
    var n := |first.out|;
    assert 1 <= n <= |cur|;
    assert first.r.input == cur[n..] + Framed(cs) + tail;
    assert |first.r.input| >= 4;
  }

  lemma DeliveryAfter(
    rest: ReadResult, calls: nat, total: nat, cur: seq<byte>, n: nat, cs: seq<seq<byte>>, tail: seq<byte>, maxTotal: int)
    requires 1 <= n <= |cur| && Delivery(rest, calls, total + n, cur[n..], cs, tail, maxTotal)
    ensures Delivery(rest.(out := cur[..n] + rest.out), calls + 1, total, cur, cs, tail, maxTotal)
  {
    hide Within, AllFit;
    var later := Within(cs, total + |cur|, maxTotal);
    assert cur[..n] + (cur[n..] + later) == cur + later;
  }

  lemma {:induction false} AtHeader(
    r: Reader, cs: seq<seq<byte>>, tail: seq<byte>, script: seq<Call>, maxTotal: int, eager: bool)
    requires InStream(r, [], cs, tail, maxTotal) && NonEmptyBuffers(script) && script != []
    ensures Delivery(Copy(r, script, maxTotal, eager), |script|, r.total, [], cs, tail, maxTotal)
    decreases |script|, true, 0
  {
    hide ReadStep, InStream, Framed, Copy, Delivery, Within, AllFit;
    StreamHead(r, cs, tail, maxTotal);
    if cs == [] {
      EndIsDelivered(r, tail, script, maxTotal, eager);
    } else {
      StreamIsOpen(r, cs, tail, maxTotal);
      BuffersTail(script);
      OpenHeader(r, script, maxTotal, eager);
      var body := Reader(r.input[4..], |cs[0]|, false, r.total);
      if r.total + |cs[0]| > maxTotal {
        CapIsDelivered(body, cs, tail, script, maxTotal, eager);
      } else {
        StreamIsDelivered(body, cs[0], cs[1..], tail, script, maxTotal, eager);
        DeliveryOpened(Copy(body, script, maxTotal, eager), |script|, r.total, cs, tail, maxTotal);
      }
    }
  }

  lemma StreamIsOpen(r: Reader, cs: seq<seq<byte>>, tail: seq<byte>, maxTotal: int)
    requires InStream(r, [], cs, tail, maxTotal)
    ensures !r.done && r.remaining == 0
  {
  }

  lemma EndIsDelivered(r: Reader, tail: seq<byte>, script: seq<Call>, maxTotal: int, eager: bool)
    requires InStream(r, [], [], tail, maxTotal) && script != [] && |r.input| >= 4
    requires FromBigEndian(r.input[..4]) == 0 && r.input[4..] == tail
    ensures Delivery(Copy(r, script, maxTotal, eager), |script|, r.total, [], [], tail, maxTotal)
  {
    hide Framed;
  }

  lemma CapIsDelivered(
    body: Reader, cs: seq<seq<byte>>, tail: seq<byte>, script: seq<Call>, maxTotal: int, eager: bool)
    requires cs != [] && script != [] && !body.done && body.remaining == |cs[0]| > 0
    requires body.total + |cs[0]| > maxTotal
    ensures Delivery(Copy(body, script, maxTotal, eager), |script|, body.total, [], cs, tail, maxTotal)
  {
    OverCapStays(body, script[0], maxTotal, eager);
    CopyUnfolds(body, script, maxTotal, eager);
    hide ReadStep, Copy;
  }

  lemma DeliveryOpened(
    end: ReadResult, calls: nat, total: nat, cs: seq<seq<byte>>, tail: seq<byte>, maxTotal: int)
    requires cs != [] && total + |cs[0]| <= maxTotal && Delivery(end, calls, total, cs[0], cs[1..], tail, maxTotal)
    ensures Delivery(end, calls, total, [], cs, tail, maxTotal)
  {
    var all := cs[0] + Within(cs[1..], total + |cs[0]|, maxTotal);
    assert [] + Within(cs, total, maxTotal) == all;
  }

  /** What the next four bytes of a complete stream announce. */
  lemma StreamHead(r: Reader, cs: seq<seq<byte>>, tail: seq<byte>, maxTotal: int)
    requires InStream(r, [], cs, tail, maxTotal)
    ensures |r.input| >= 4
    ensures cs == [] ==> FromBigEndian(r.input[..4]) == 0 && r.input[4..] == tail
    ensures cs != [] ==>
              && FromBigEndian(r.input[..4]) == |cs[0]| && Sized(cs[0])
              && (r.total + |cs[0]| <= maxTotal ==>
                    InStream(Reader(r.input[4..], |cs[0]|, false, r.total), cs[0], cs[1..], tail, maxTotal))
  {
    assert r.input == Framed(cs) + tail;
    FramedHead(cs, tail);
    if cs != [] {
      assert Sized(cs[0]) && cs == [cs[0]] + cs[1..];
      FirstChunk(cs[0], cs[1..], tail);
      assert r.input[4..] == cs[0] + Framed(cs[1..]) + tail;
    }
  }

  /** End to end: whatever was written, in whatever pieces, is what comes out of
      the other end, for every choice of buffers and short reads; the copy ends
      cleanly just past the terminator, after at most one call more than there
      are bytes. */
  lemma RoundTrip(writes: seq<seq<byte>>, tail: seq<byte>, script: seq<Call>, maxTotal: int, eager: bool)
    requires |Concat(writes)| <= maxTotal && NonEmptyBuffers(script) && |script| > |Concat(writes)|
    ensures var end := Copy(Reader(Framed(AllChunks(writes)) + tail, 0, false, 0), script, maxTotal, eager);
            end.err == EOF && end.out == Concat(writes) && end.r.total == |Concat(writes)| && end.r.input == tail
  {
    var cs := AllChunks(writes);
    SmallEnoughFits(cs, 0, maxTotal);
    assert [] + Framed(cs) + tail == Framed(cs) + tail;
    StreamIsDelivered(Reader(Framed(cs) + tail, 0, false, 0), [], cs, tail, script, maxTotal, eager);
    assert [] + Within(cs, 0, maxTotal) == Within(cs, 0, maxTotal);
  }

  /** The two ends together: every sequence of writes, closed, comes out of the
      reader whole, through every choice of buffers and short reads. */
  method Transfer(writes: seq<seq<byte>>, script: seq<Call>, maxTotal: int, eager: bool)
    returns (out: seq<byte>, err: ReadError, total: nat)
    requires |Concat(writes)| <= maxTotal && NonEmptyBuffers(script) && |script| > |Concat(writes)|
    ensures err == EOF && out == Concat(writes) && total == |Concat(writes)|
  {
    hide Copy, Framed, AllChunks, NonEmptyBuffers, Concat, Cut;
    var sink := new Sink(|Framed(AllChunks(writes))|);
    var ok := Send(sink, writes);
    WholeFits(Framed(AllChunks(writes)), |Framed(AllChunks(writes))|);
    var cr := new ChunkReader(sink.data, maxTotal, eager);
    RoundTrip(writes, [], script, maxTotal, eager);
    assert [] + Framed(AllChunks(writes)) == Framed(AllChunks(writes)) == Framed(AllChunks(writes)) + [];
    out, err := CopyAll(cr, script);
    total := cr.total;
  }

  /** Exactly at the cap: a well-formed stream longer than maxTotal delivers the
      longest prefix of whole chunks that fits and then reports the cap on this
      and every later read; a stream within it never does. */
  lemma CapIsExact(cs: seq<seq<byte>>, tail: seq<byte>, script: seq<Call>, maxTotal: int, eager: bool) returns (k: nat)
    requires WellSized(cs) && NonEmptyBuffers(script) && |script| > |Concat(cs)|
    ensures k <= |cs|
    ensures k < |cs| ==> |Concat(cs[..k + 1])| > maxTotal
    ensures k > 0 ==> |Concat(cs[..k])| <= maxTotal
    ensures var end := Copy(Reader(Framed(cs) + tail, 0, false, 0), script, maxTotal, eager);
            && end.out == Concat(cs[..k])
            && (end.err == EOF <==> k == |cs|)
            && (end.err == PayloadTooLarge <==> k < |cs|)
            && (k < |cs| ==> forall c :: ReadStep(end.r, c, maxTotal, eager) == ReadResult(end.r, [], PayloadTooLarge))
  {
    k := WithinIsLongest(cs, 0, maxTotal);
    assert [] + Framed(cs) + tail == Framed(cs) + tail;
    StreamIsDelivered(Reader(Framed(cs) + tail, 0, false, 0), [], cs, tail, script, maxTotal, eager);
    assert [] + Within(cs, 0, maxTotal) == Within(cs, 0, maxTotal);
    ConcatAppend(cs[..k], cs[k..]);
    assert cs == cs[..k] + cs[k..];
  }

  // ------------------------------------------------------- eager transports

  /** On a transport that reports EOF together with its last bytes, a stream cut
      exactly between two chunks is taken for a complete one. */
  lemma {:induction false} EagerCutLooksClean(
    r: Reader, cur: seq<byte>, cs: seq<seq<byte>>, script: seq<Call>, maxTotal: int)
    requires !r.done && r.remaining == |cur| && WellSized(cs) && cur + Concat(cs) != []
    requires r.input == cur + Encode(cs) && r.total + |cur + Concat(cs)| <= maxTotal
    requires NonEmptyBuffers(script) && |script| >= |cur + Concat(cs)|
    ensures var end := Copy(r, script, maxTotal, true); end.err == EOF && end.out == cur + Concat(cs)
    decreases |script|, cur == []
  {
    hide ReadStep, Encode, Copy, Concat, WellSized;
    if cur == [] {
      EagerHead(r, cs, script, maxTotal);
      var body := Reader(r.input[4..], |cs[0]|, false, r.total);
      EagerCutLooksClean(body, cs[0], cs[1..], script, maxTotal);
    } else {
      BuffersTail(script);
      EagerStep(r, cur, cs, script[0], maxTotal);
      CopyUnfolds(r, script, maxTotal, true);
      var first := ReadStep(r, script[0], maxTotal, true);
      var n := |first.out|;
      assert cur[..n] + (cur[n..] + Concat(cs)) == cur + Concat(cs);
      if first.err == NoError {
        EagerCutLooksClean(first.r, cur[n..], cs, script[1..], maxTotal);
      }
    }
  }

  lemma EagerHead(r: Reader, cs: seq<seq<byte>>, script: seq<Call>, maxTotal: int)
    requires !r.done && r.remaining == 0 && WellSized(cs) && [] + Concat(cs) != []
    requires r.input == [] + Encode(cs) && script != []
    ensures cs != [] && |cs[0]| > 0 && WellSized(cs[1..]) && |r.input| >= 4
    ensures cs[0] + Concat(cs[1..]) == [] + Concat(cs)
    ensures var body := Reader(r.input[4..], |cs[0]|, false, r.total);
            && body.input == cs[0] + Encode(cs[1..])
            && Copy(r, script, maxTotal, true) == Copy(body, script, maxTotal, true)
  {
    var c, rest := cs[0], cs[1..];
    assert Sized(c);
    BigEndianRoundTrip(|c|);
    assert r.input == BigEndian(|c|) + (c + Encode(rest));
    assert r.input[..4] == BigEndian(|c|);
    OpenHeader(r, script, maxTotal, true);
  }

  /** One read inside an open chunk on an eager transport: the stream goes on,
      or these were its last bytes and nothing is missing from the chunk. */
  lemma EagerStep(r: Reader, cur: seq<byte>, cs: seq<seq<byte>>, c: Call, maxTotal: int)
    requires !r.done && r.remaining == |cur| && WellSized(cs) && cur != [] && c.size > 0
    requires r.input == cur + Encode(cs) && r.total + |cur + Concat(cs)| <= maxTotal
    ensures var first := ReadStep(r, c, maxTotal, true);
            var n := |first.out|;
            && 1 <= n <= |cur| && first.out == cur[..n] && first.r.total == r.total + n
            && !first.r.done && first.r.remaining == |cur| - n && first.r.input == cur[n..] + Encode(cs)
            && (if first.err == NoError then cur[n..] + Concat(cs) != []
                else first.err == EOF && cur == first.out && cur + Concat(cs) == cur)
  {
    var first := ReadStep(r, c, maxTotal, true);
    var n := |first.out|;
    EagerNeverEmpty(cs);
    assert 1 <= n <= |cur|;
    assert first.r.input == cur[n..] + Encode(cs);
  }

  lemma EagerNeverEmpty(cs: seq<seq<byte>>)
    requires WellSized(cs)
    ensures cs != [] ==> Concat(cs) != [] && Encode(cs) != []
  {
    if cs != [] { assert Sized(cs[0]); }
  }

  /** Exactly when truncation goes unnoticed: with long enough reading, a cut
      stream that fits the cap ends cleanly if and only if the transport is
      eager and the cut falls right after some chunk. */
  lemma TruncationUnnoticedIff(cs: seq<seq<byte>>, cut: nat, script: seq<Call>, maxTotal: int, eager: bool)
    requires WellSized(cs) && cut < |Framed(cs)| && |Concat(cs)| <= maxTotal
    requires NonEmptyBuffers(script) && |script| > |Concat(cs)|
    ensures Copy(Reader(Framed(cs)[..cut], 0, false, 0), script, maxTotal, eager).err == EOF
       <==> eager && exists k :: 0 < k <= |cs| && Encode(cs[..k]) == Framed(cs)[..cut]
  {
    var input := Framed(cs)[..cut];
    var r := Reader(input, 0, false, 0);
    var end := Copy(r, script, maxTotal, eager);
    if !eager {
      TruncationIsDetected(cs, cut, script, maxTotal);
    } else {
      if end.err == EOF {
        var cur, got := CleanEndIsComplete(r, script, maxTotal, eager);
        CutIsBoundary(cs, cut, end.r.input, got);
      }
      if k :| 0 < k <= |cs| && Encode(cs[..k]) == input {
        assert WellSized(cs[..k]);
        EagerNeverEmpty(cs[..k]);
        ConcatAppend(cs[..k], cs[k..]);
        assert cs == cs[..k] + cs[k..];
        assert [] + Concat(cs[..k]) == Concat(cs[..k]) && [] + Encode(cs[..k]) == Encode(cs[..k]);
        EagerCutLooksClean(r, [], cs[..k], script, maxTotal);
      }
    }
  }

  /** A clean end on a cut stream is a cut right after a chunk. */
  lemma CutIsBoundary(cs: seq<seq<byte>>, cut: nat, rest: seq<byte>, got: seq<seq<byte>>)
    requires WellSized(cs) && cut < |Framed(cs)| && WellSized(got)
    requires var input := Framed(cs)[..cut];
             input == [] + Framed(got) + rest || (got != [] && input == [] + Encode(got))
    ensures exists k :: 0 < k <= |cs| && Encode(cs[..k]) == Framed(cs)[..cut]
  {
    var input, missing := Framed(cs)[..cut], Framed(cs)[cut..];
    assert Framed(cs) == input + missing;
    if input == [] + Framed(got) + rest {
      assert Framed(got) + (rest + missing) == Framed(cs) + [];
      FramedIsPrefixFree(got, rest + missing, cs, []);
    } else {
      EncodePrefix(got, missing, cs);
      assert cs[..|got|] == got;
    }
  }

  lemma {:induction false} EncodePrefix(got: seq<seq<byte>>, missing: seq<byte>, cs: seq<seq<byte>>)
    requires WellSized(got) && WellSized(cs) && Encode(got) + missing == Framed(cs)
    ensures got <= cs
    decreases |got|
  {
    if got != [] {
      var s := Framed(cs);
      assert Sized(got[0]);
      BigEndianRoundTrip(|got[0]|);
      assert s == BigEndian(|got[0]|) + got[0] + (Encode(got[1..]) + missing);
      assert s[..4] == BigEndian(|got[0]|);
      assert s + [] == s;
      FramedHead(cs, []);
      var n := |got[0]|;
      assert cs != [] && n == |cs[0]|;
      assert got[0] == s[4..4 + n] == cs[0];
      assert Encode(got[1..]) + missing == s[4 + n..] == Framed(cs[1..]) + [] == Framed(cs[1..]);
      EncodePrefix(got[1..], missing, cs[1..]);
    }
  }
}
