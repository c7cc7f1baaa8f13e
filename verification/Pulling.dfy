// The cap logic of pull in internal/daemon/server.go: a file fetched from a
// remote command through a reader that stops one byte past the cap.

module Pulling {
  import opened Basics

  /** io.LimitedReader over the command's output, which arrives in any pieces. */
  class LimitedReader {
    var output: seq<byte>
    var left: int

    constructor (stream: seq<byte>, n: int)
      ensures output == stream && left == n
    {
      output, left := stream, n;
    }

    method Read() returns (out: seq<byte>, eof: bool)
      modifies this
      ensures eof <==> old(left) <= 0 || old(output) == []
      ensures eof ==> out == [] && output == old(output) && left == old(left)
      ensures !eof ==> out != [] && old(output) == out + output && left == old(left) - |out| && left >= 0
    {
      if left <= 0 || output == [] {
        return [], true;
      }
      var n :| 1 <= n <= |output| && n <= left;
      out, output, left, eof := output[..n], output[n..], left - n, false;
    }
  }

  datatype PullError = NoError | CopyFailed | TooLarge | CommandFailed

  function Least(a: int, b: int): int
  {
    if a < b then a else b
  }

  /** A pulled file is accepted exactly when the command succeeds and its whole
      output is within the cap, and then the staged file is that output. What is
      staged is never more than one byte over the cap; a full disk (only room
      bytes can be written) and the cap are told apart from a failed command. */
  method Pull(stream: seq<byte>, exitOk: bool, maxPayload: nat, room: nat) returns (staged: seq<byte>, err: PullError)
    ensures staged == stream[..Least(room, Least(|stream|, maxPayload + 1))]
    ensures err == CopyFailed <==> room < Least(|stream|, maxPayload + 1)
    ensures err == TooLarge <==> maxPayload < |stream| && maxPayload < room
    ensures err == NoError <==> |stream| <= maxPayload && |stream| <= room && exitOk
    ensures err == NoError ==> staged == stream
  {
    var lr := new LimitedReader(stream, maxPayload + 1);
    staged := [];
    var copied := true;
    while copied
      invariant lr.left >= 0 && lr.left + |stream| - |lr.output| == maxPayload + 1
      invariant copied ==> |staged| <= room && stream == staged + lr.output
      invariant !copied ==> room < Least(|stream|, maxPayload + 1) && staged == stream[..room]
      decreases copied, |lr.output|
    {
      var out, eof := lr.Read();
      if eof {
        break;
      }
      if |out| > room - |staged| {
        staged := staged + out[..room - |staged|];
        copied := false;
      } else {
        staged := staged + out;
      }
    }
    if !copied {
      return staged, CopyFailed;
    }
    if lr.left == 0 {
      return staged, TooLarge;
    }
    err := if exitOk then NoError else CommandFailed;
  }
}
