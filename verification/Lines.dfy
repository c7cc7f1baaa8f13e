// The newline-terminated messages of internal/protocol/protocol.go: the length
// rules of the request header, and readLine. Marshalled JSON is taken as bytes
// without a raw newline.

module Lines {
  import opened Basics

  const NEWLINE: byte := 10

  const MAX_HEADER: nat := 64 * 1024

  /** The index of the first newline of s, or |s|. */
  function FirstNewline(s: seq<byte>): (i: nat)
    ensures i <= |s| && NEWLINE !in s[..i]
    ensures i < |s| ==> s[i] == NEWLINE
  {
    if s == [] || s[0] == NEWLINE then 0
    else
      var i := FirstNewline(s[1..]);
      assert s[..i + 1] == [s[0]] + s[1..][..i];
      i + 1
  }

  lemma {:induction false} SkipsClean(a: seq<byte>, b: seq<byte>)
    requires NEWLINE !in a
    ensures FirstNewline(a + b) == |a| + FirstNewline(b)
  {
    if a == [] {
      assert a + b == b;
    } else {
      assert a[0] in a && (a + b)[1..] == a[1..] + b;
      SkipsClean(a[1..], b);
    }
  }

  /** bufio.Reader.ReadSlice with a buffer of size bytes, on a stream that ends
      after input. How the stream is fragmented does not matter. */
  datatype Slice =
    | Line(line: seq<byte>, rest: seq<byte>)
    | BufferFull(frag: seq<byte>, rest: seq<byte>)
    | Ended(frag: seq<byte>)

  function ReadSlice(input: seq<byte>, size: nat): Slice
  {
    var i := FirstNewline(input);
    if i < |input| && i < size then Line(input[..i + 1], input[i + 1..])
    else if |input| >= size then BufferFull(input[..size], input[size..])
    else Ended(input)
  }

  datatype Encoded = Wire(bytes: seq<byte>) | HeaderTooLarge

  function WriteRequest(json: seq<byte>): Encoded
  {
    if |json| > MAX_HEADER then HeaderTooLarge else Wire(json + [NEWLINE])
  }

  function ReadRequest(input: seq<byte>): Slice
  {
    ReadSlice(input, MAX_HEADER)
  }

  /** Every header the client is willing to send is read back intact, leaving
      the payload, except one whose JSON has exactly MAX_HEADER bytes: that one
      is sent and always refused. */
  lemma HeaderIsReadBackIff(json: seq<byte>, payload: seq<byte>)
    requires NEWLINE !in json && WriteRequest(json).Wire?
    ensures var wire := WriteRequest(json).bytes;
            && wire == json + [10] && |json| <= 65536
            && (ReadRequest(wire + payload) == Line(wire, payload) <==> |json| < 65536)
            && (|json| == 65536 ==> ReadRequest(wire + payload).BufferFull?)
  {
    var wire := WriteRequest(json).bytes;
    var all := json + ([NEWLINE] + payload);
    SkipsClean(json, [NEWLINE] + payload);
    assert wire + payload == all;
    assert all[..|json| + 1] == wire && all[|json| + 1..] == payload;
  }

  /** Only a larger header is refused before it is sent. */
  lemma HeaderIsSentIff(json: seq<byte>)
    ensures WriteRequest(json).Wire? <==> |json| <= 65536
  {
  }

  /** A header cut short by a disconnect is never taken for a whole one. */
  lemma CutHeaderIsNotRead(json: seq<byte>, cut: nat)
    requires NEWLINE !in json && cut <= |json|
    ensures !ReadRequest(json[..cut]).Line?
  {
    SkipsClean(json[..cut], []);
    assert json[..cut] + [] == json[..cut];
  }

  datatype LineResult = GotLine(bytes: seq<byte>, after: seq<byte>) | LineTooLong | LineCut

  /** readLine: accumulates fragments of a reader whose buffer may be smaller
      than max. The buffer size does not show in the result. */
  method ReadLine(input: seq<byte>, bufferSize: nat, max: nat) returns (r: LineResult)
    requires bufferSize > 0
    ensures var i := FirstNewline(input);
            r == if i < |input| && i + 1 <= max then GotLine(input[..i + 1], input[i + 1..])
                 else if |input| <= max then LineCut
                 else LineTooLong
  {
    hide FirstNewline, ReadSlice;
    var buf: seq<byte> := [];
    var unread := input;
    ghost var i := FirstNewline(input);
    while true
      invariant input == buf + unread && |buf| <= max
      invariant i == |buf| + FirstNewline(unread)
      decreases |unread|
    {
      var s := ReadSlice(unread, bufferSize);
      SliceCases(unread, bufferSize);
      var frag := match s case Line(l, _) => l case BufferFull(f, _) => f case Ended(f) => f;
      if |buf| + |frag| > max {
        return LineTooLong;
      }
      if s.BufferFull? {
        Shifts(buf, frag, s.rest);
        buf := buf + frag;
        unread := s.rest;
        continue;
      }
      if s.Ended? {
        return LineCut;
      }
      LineEnds(buf, unread, bufferSize);
      return GotLine(buf + frag, s.rest);
    }
  }

  lemma Shifts(a: seq<byte>, b: seq<byte>, c: seq<byte>)
    ensures a + (b + c) == (a + b) + c
  {
  }

  lemma SliceCases(input: seq<byte>, size: nat)
    ensures var i := FirstNewline(input);
            match ReadSlice(input, size)
            case Line(line, rest) => i < |input| && |line| == i + 1
            case BufferFull(frag, rest) =>
              |frag| == size && input == frag + rest && |rest| == |input| - size && i == size + FirstNewline(rest)
            case Ended(frag) => frag == input && i == |input|
  {
    hide FirstNewline;
    if size <= FirstNewline(input) {
      Fragment(input, size);
    }
  }

  lemma Fragment(input: seq<byte>, size: nat)
    requires size <= FirstNewline(input)
    ensures input == input[..size] + input[size..] && FirstNewline(input) == size + FirstNewline(input[size..])
  {
    hide FirstNewline;
    var clean := input[..FirstNewline(input)];
    assert input[..size] == clean[..size];
    assert forall b <- clean[..size] :: b in clean;
    assert input == input[..size] + input[size..];
    SkipsClean(input[..size], input[size..]);
  }

  lemma LineParts(input: seq<byte>, size: nat)
    requires ReadSlice(input, size).Line?
    ensures var s, i := ReadSlice(input, size), FirstNewline(input);
            i < |input| && s.line == input[..i + 1] && s.rest == input[i + 1..]
  {
  }

  /** Cutting a + b inside b. */
  lemma CutAcross(a: seq<byte>, b: seq<byte>, i: nat)
    requires i <= |b|
    ensures (a + b)[..|a| + i] == a + b[..i] && (a + b)[|a| + i..] == b[i..]
  {
  }

  lemma LineEnds(buf: seq<byte>, unread: seq<byte>, size: nat)
    requires ReadSlice(unread, size).Line?
    ensures var s, i, input := ReadSlice(unread, size), |buf| + FirstNewline(unread), buf + unread;
            i < |input| && buf + s.line == input[..i + 1] && s.rest == input[i + 1..]
  {
    hide FirstNewline, ReadSlice;
    LineParts(unread, size);
    CutAcross(buf, unread, FirstNewline(unread) + 1);
  }
}
