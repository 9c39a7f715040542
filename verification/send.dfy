/**
 * The reliable send primitive send_or_die: write a whole buffer to the TCP
 * socket, retrying interrupted calls and advancing past partial writes, or
 * end the process.
 *
 * Each call to `send` is answered by the next entry of a script. The kernel
 * never reports more bytes than it was asked to write, so an answer
 * `Accepted(capacity)` makes `send` return the smaller of `capacity` and the
 * remaining length; a capacity of 0 is the degenerate zero return.
 */
module Send {
  import opened Process

  /** The answer to one `send` call. */
  datatype SendResult =
    | Accepted(capacity: nat)   // up to `capacity` bytes are written
    | Error(errno: int)         // send returns -1 and sets errno

  /** How a send_or_die call ends. */
  datatype SendEnd =
    | Flushed              // the remaining length reached 0
    | ZeroWrite            // send returned 0, and send_or_die returned with bytes unsent
    | Fatal(death: Death)  // a send failed with an errno other than EINTR: the process exits
    | Pending              // the script ran out: the last send call never returns

  /**
   * One run of send_or_die: the bytes each successful send wrote, in order,
   * how the run ended, and how many send calls it made.
   */
  datatype SendRun = SendRun(chunks: seq<seq<byte>>, end: SendEnd, attempts: nat)

  /** The value `send` returns when asked to write `len` bytes. */
  function SendReturn(reply: SendResult, len: nat): (nw: int)
    ensures nw == -1 <==> reply.Error?
    ensures -1 <= nw <= len
    ensures reply.Accepted? && reply.capacity > 0 && len > 0 ==> nw > 0
  {
    match reply
    case Error(_) => -1
    case Accepted(capacity) => if capacity < len then capacity else len
  }

  /**
   * What send_or_die on socket `fd` does with the unsent bytes `data` when
   * its send calls are answered by `sends`; SendShape states what the run
   * delivers.
   */
  function SendSpec(fd: int, data: seq<byte>, sends: seq<SendResult>): (r: SendRun)
    ensures r.attempts <= |sends|
    decreases |sends|
  {
    if |data| == 0 then SendRun([], Flushed, 0)
    else if |sends| == 0 then SendRun([], Pending, 0)
    else
      var nw := SendReturn(sends[0], |data|);
      if nw == 0 then SendRun([], ZeroWrite, 1)
      else if nw == -1 then
        if sends[0].errno == EINTR then
          var rest := SendSpec(fd, data, sends[1..]);
          SendRun(rest.chunks, rest.end, rest.attempts + 1)
        else SendRun([], Fatal(SendFailed(fd, sends[0].errno)), 1)
      else
        var rest := SendSpec(fd, data[nw..], sends[1..]);
        SendRun([data[..nw]] + rest.chunks, rest.end, rest.attempts + 1)
  }

  /**
   * What a run of send_or_die delivers: the chunks it writes are non-empty
   * and, concatenated, are always a prefix of the buffer; they are the whole
   * buffer exactly when the run is `Flushed`, and a strict prefix after a
   * zero return. An empty buffer makes no send call at all. A fatal end
   * names the socket and an errno other than EINTR.
   */
  lemma {:induction false} SendShape(fd: int, data: seq<byte>, sends: seq<SendResult>)
    ensures var r := SendSpec(fd, data, sends);
            && Flatten(r.chunks) <= data
            && (r.end == Flushed <==> Flatten(r.chunks) == data)
            && (r.end == ZeroWrite ==> Flatten(r.chunks) < data)
            && (r.end.Fatal? ==> r.end.death.SendFailed? && r.end.death.fd == fd && r.end.death.errno != EINTR)
            && (forall k :: 0 <= k < |r.chunks| ==> r.chunks[k] != [])
            && (data == [] ==> r == SendRun([], Flushed, 0))
    decreases |sends|
  {
    if data != [] && sends != [] {
      var nw := SendReturn(sends[0], |data|);
      if nw == -1 && sends[0].errno == EINTR {
        SendShape(fd, data, sends[1..]);
      } else if nw > 0 {
        var rest := SendSpec(fd, data[nw..], sends[1..]);
        SendShape(fd, data[nw..], sends[1..]);
        assert data == data[..nw] + data[nw..];
        FlattenAppend([data[..nw]], rest.chunks);
        assert Flatten([data[..nw]]) == data[..nw] by {
          assert [data[..nw]][1..] == [];
        }
        var r := SendSpec(fd, data, sends);
        assert r.chunks == [data[..nw]] + rest.chunks;
        forall k | 0 <= k < |r.chunks| ensures r.chunks[k] != [] {
          if k > 0 { assert r.chunks[k] == rest.chunks[k - 1]; }
        }
      }
    }
  }

  /** Prepends the work done so far to the run of what is left. */
  function After(chunks: seq<seq<byte>>, attempts: nat, rest: SendRun): SendRun
  {
    SendRun(chunks + rest.chunks, rest.end, attempts + rest.attempts)
  }

  /**
   * send_or_die(fd, buf, len): the loop advances an offset into `buf` and
   * decreases the remaining length after each positive write, retries on
   * EINTR, and stops on a zero return. Its run is the one SendSpec
   * describes for the first `len` bytes of the buffer.
   */
  method SendOrDie(fd: int, buf: array<byte>, len: nat, sends: seq<SendResult>) returns (run: SendRun)
    requires len <= buf.Length
    ensures run == SendSpec(fd, buf[..len], sends)
  {
    ghost var data := buf[..len];
    var off: nat, rem: nat, i: nat := 0, len, 0;
    var chunks: seq<seq<byte>> := [];
    while rem != 0
      invariant off + rem == len && i <= |sends|
      invariant SendSpec(fd, data, sends) == After(chunks, i, SendSpec(fd, data[off..], sends[i..]))
      decreases rem, |sends| - i
    {
      if i == |sends| {
        assert sends[i..] == [] && chunks + [] == chunks;
        return SendRun(chunks, Pending, i);
      }
      var reply := sends[i];
      var nw := SendReturn(reply, rem);
      assert sends[i..] == [reply] + sends[i + 1..];
      i := i + 1;
      if nw == 0 {
        assert chunks + [] == chunks;
        return SendRun(chunks, ZeroWrite, i);
      }
      if nw == -1 {
        if reply.errno == EINTR {
          InterruptedSendRetries(fd, data[off..], sends[i..]);
          continue;
        }
        assert chunks + [] == chunks;
        return SendRun(chunks, Fatal(SendFailed(fd, reply.errno)), i);
      }
      WriteAdvances(fd, data[off..], [reply] + sends[i..]);
      assert data[off..][..nw] == buf[off..off + nw] && data[off..][nw..] == data[off + nw..];
      assert (chunks + [buf[off..off + nw]]) + SendSpec(fd, data[off + nw..], sends[i..]).chunks
          == chunks + ([buf[off..off + nw]] + SendSpec(fd, data[off + nw..], sends[i..]).chunks);
      chunks := chunks + [buf[off..off + nw]];
      rem := rem - nw;
      off := off + nw;
    }
    assert data[off..] == [] && chunks + [] == chunks;
    run := SendRun(chunks, Flushed, i);
  }

  /**
   * A write that reports `nw` > 0 bytes sends the next `nw` bytes and leaves
   * the rest, `nw` bytes shorter, to the following calls.
   */
  lemma WriteAdvances(fd: int, data: seq<byte>, sends: seq<SendResult>)
    requires data != [] && sends != [] && SendReturn(sends[0], |data|) > 0
    ensures var nw := SendReturn(sends[0], |data|);
            SendSpec(fd, data, sends) == After([data[..nw]], 1, SendSpec(fd, data[nw..], sends[1..]))
            && |data[nw..]| < |data|
  {
  }

  /** Every answer either writes at least one byte or is an interrupted call. */
  predicate Cooperative(sends: seq<SendResult>)
  {
    forall k :: 0 <= k < |sends| ==> sends[k] == Error(EINTR) || (sends[k].Accepted? && sends[k].capacity > 0)
  }

  /** The number of answers that accept bytes. */
  function Writes(sends: seq<SendResult>): nat
  {
    if sends == [] then 0 else (if sends[0].Accepted? then 1 else 0) + Writes(sends[1..])
  }

  /**
   * A sink that accepts at least one byte per write, with any number of
   * interruptions in between, receives the whole buffer as long as it
   * answers at least as many writes as there are bytes. The writes left over
   * are at least as many as the sink had beyond the buffer's length.
   */
  lemma {:induction false} CooperativeSinkFlushes(fd: int, data: seq<byte>, sends: seq<SendResult>)
    requires Cooperative(sends) && Writes(sends) >= |data|
    ensures SendSpec(fd, data, sends).end == Flushed
    ensures Flatten(SendSpec(fd, data, sends).chunks) == data
    ensures Writes(sends[SendSpec(fd, data, sends).attempts..]) >= Writes(sends) - |data|
    decreases |sends|
  {
    if data != [] {
      assert sends != [];
      assert Cooperative(sends[1..]) by {
        forall k | 0 <= k < |sends[1..]|
          ensures sends[1..][k] == Error(EINTR) || (sends[1..][k].Accepted? && sends[1..][k].capacity > 0)
        {
          assert sends[1..][k] == sends[k + 1];
        }
      }
      var nw := SendReturn(sends[0], |data|);
      if sends[0].Accepted? {
        CooperativeSinkFlushes(fd, data[nw..], sends[1..]);
        var a := SendSpec(fd, data[nw..], sends[1..]).attempts;
        assert sends[1..][a..] == sends[a + 1..];
      } else {
        CooperativeSinkFlushes(fd, data, sends[1..]);
        var a := SendSpec(fd, data, sends[1..]).attempts;
        assert sends[1..][a..] == sends[a + 1..];
      }
    } else {
      assert sends[0..] == sends;
    }
  }

  /** An interrupted send consumes one answer and leaves the offset and remaining length unchanged. */
  lemma InterruptedSendRetries(fd: int, data: seq<byte>, sends: seq<SendResult>)
    requires data != []
    ensures var r := SendSpec(fd, data, sends);
            SendSpec(fd, data, [Error(EINTR)] + sends) == SendRun(r.chunks, r.end, r.attempts + 1)
  {
    assert ([Error(EINTR)] + sends)[1..] == sends;
  }

  /** Any other failed send ends the process, naming the socket and the errno, after one attempt. */
  lemma FailedSendIsFatal(fd: int, data: seq<byte>, errno: int, sends: seq<SendResult>)
    requires data != [] && errno != EINTR
    ensures SendSpec(fd, data, [Error(errno)] + sends) == SendRun([], Fatal(SendFailed(fd, errno)), 1)
  {
  }
}
