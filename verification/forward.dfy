/**
 * The forward loop of the bridge: receive one datagram on the UDP socket
 * into a fixed buffer and hand its bytes to send_or_die on the TCP socket,
 * over and over.
 *
 * The loop of the program never ends; the model runs it for as many
 * iterations as the script of `recv` answers has entries. `recv` copies the
 * first BUF_SIZE bytes of a longer datagram and silently drops the rest.
 */
module Forward {
  import opened Process
  import opened Send

  /** The answer to one `recv` call. */
  datatype RecvResult =
    | Datagram(payload: seq<byte>)  // a datagram arrives with these bytes
    | RecvError(errno: int)         // recv returns -1

  /** Where a run of the loop stands when the scripts are used up, or why the process died. */
  datatype LoopEnd =
    | Listening             // every scripted datagram was handled; the loop waits in recv
    | SendPending           // a send call never returns
    | Exited(death: Death)  // send_or_die ended the process

  /**
   * A run of the forward loop: the bytes written to the TCP stream, how it
   * ended, and whether no datagram was cut short by a send returning 0.
   */
  datatype ForwardRun = ForwardRun(out: seq<byte>, end: LoopEnd, intact: bool)

  /** The bytes of a datagram that fit in the receive buffer: all of them, or the first BUF_SIZE. */
  function Received(payload: seq<byte>): (d: seq<byte>)
    ensures |d| <= BUF_SIZE && d <= payload
    ensures |payload| <= BUF_SIZE ==> d == payload
    ensures |payload| > BUF_SIZE ==> d == payload[..BUF_SIZE]
  {
    if |payload| <= BUF_SIZE then payload else payload[..BUF_SIZE]
  }

  /** recv(udp, buf, BUF_SIZE, 0): fills the front of `buf` with the datagram and returns its length, or -1. */
  method Recv(buf: array<byte>, reply: RecvResult) returns (n: int)
    requires buf.Length == BUF_SIZE
    modifies buf
    ensures reply.RecvError? ==> n == -1 && buf[..] == old(buf[..])
    ensures reply.Datagram? ==> 0 <= n <= BUF_SIZE && buf[..n] == Received(reply.payload) && buf[n..] == old(buf[n..])
  {
    match reply
    case RecvError(_) =>
      n := -1;
    case Datagram(payload) =>
      var d := Received(payload);
      forall k | 0 <= k < |d| {
        buf[k] := d[k];
      }
      n := |d|;
  }

  /** Prepends what earlier iterations wrote to the run of the later ones. */
  function Then(out: seq<byte>, intact: bool, rest: ForwardRun): ForwardRun
  {
    ForwardRun(out + rest.out, rest.end, intact && rest.intact)
  }

  /**
   * The forward loop of the bridge, writing to socket `tcp`, when `recv`
   * answers with `recvs` and `send` with `sends`, in that order. A failed
   * receive is skipped; each datagram is sent in full, or to the first zero
   * return, before the next one is received. The loop ends the process only
   * through a failed send on `tcp`.
   */
  function ForwardSpec(tcp: int, recvs: seq<RecvResult>, sends: seq<SendResult>): (r: ForwardRun)
    ensures r.end.Exited? ==> r.end.death.SendFailed? && r.end.death.fd == tcp
    decreases |recvs|
  {
    if recvs == [] then ForwardRun([], Listening, true)
    else match recvs[0]
      case RecvError(_) => ForwardSpec(tcp, recvs[1..], sends)
      case Datagram(payload) =>
        var s := SendSpec(tcp, Received(payload), sends);
        SendShape(tcp, Received(payload), sends);
        var sent := Flatten(s.chunks);
        match s.end
        case Fatal(death) => ForwardRun(sent, Exited(death), true)
        case Pending => ForwardRun(sent, SendPending, true)
        case Flushed => Then(sent, true, ForwardSpec(tcp, recvs[1..], sends[s.attempts..]))
        case ZeroWrite => Then(sent, false, ForwardSpec(tcp, recvs[1..], sends[s.attempts..]))
  }

  /**
   * The body of the program's `while (1)` loop, run once per scripted
   * receive; the buffer is allocated once and overwritten by every receive.
   */
  method ForwardLoop(tcp: int, recvs: seq<RecvResult>, sends: seq<SendResult>) returns (run: ForwardRun)
    ensures run == ForwardSpec(tcp, recvs, sends)
  {
    var buf := new byte[BUF_SIZE];
    var out: seq<byte> := [];
    var intact := true;
    var i: nat, j: nat := 0, 0;
    while i < |recvs|
      invariant i <= |recvs| && j <= |sends|
      invariant ForwardSpec(tcp, recvs, sends) == Then(out, intact, ForwardSpec(tcp, recvs[i..], sends[j..]))
    {
      assert recvs[i..][1..] == recvs[i + 1..];
      var n := Recv(buf, recvs[i]);
      i := i + 1;
      if n == -1 {
        continue;
      }
      var s := SendOrDie(tcp, buf, n, sends[j..]);
      assert s == SendSpec(tcp, Received(recvs[i - 1].payload), sends[j..]);
      assert sends[j..][s.attempts..] == sends[j + s.attempts..];
      out := out + Flatten(s.chunks);
      j := j + s.attempts;
      match s.end
      case Fatal(death) =>
        return ForwardRun(out, Exited(death), intact);
      case Pending =>
        return ForwardRun(out, SendPending, intact);
      case ZeroWrite =>
        intact := false;
      case Flushed =>
    }
    run := ForwardRun(out, Listening, intact);
  }

  /** The bytes of every datagram of `recvs`, each cut to the buffer size, in order. */
  function Stream(recvs: seq<RecvResult>): seq<byte>
  {
    if recvs == [] then []
    else match recvs[0]
      case RecvError(_) => Stream(recvs[1..])
      case Datagram(payload) => Received(payload) + Stream(recvs[1..])
  }

  /**
   * Datagrams are forwarded in order, without loss, insertion or
   * reordering: unless a send returned 0, the TCP stream is a prefix of the
   * received bytes, and all of them once the loop is waiting for the next
   * datagram.
   */
  lemma {:induction false} ForwardInOrder(tcp: int, recvs: seq<RecvResult>, sends: seq<SendResult>)
    ensures var r := ForwardSpec(tcp, recvs, sends);
            r.intact ==> r.out <= Stream(recvs) && (r.end == Listening ==> r.out == Stream(recvs))
    decreases |recvs|
  {
    if recvs != [] {
      match recvs[0]
      case RecvError(_) =>
        ForwardInOrder(tcp, recvs[1..], sends);
      case Datagram(payload) =>
        var d := Received(payload);
        var s := SendSpec(tcp, d, sends);
        SendShape(tcp, d, sends);
        if s.end == Flushed || s.end == ZeroWrite {
          ForwardInOrder(tcp, recvs[1..], sends[s.attempts..]);
        }
    }
  }

  /** A failed receive forwards nothing, uses no send, and the next iteration proceeds as usual. */
  lemma FailedReceiveIsSkipped(tcp: int, errno: int, recvs: seq<RecvResult>, sends: seq<SendResult>)
    ensures ForwardSpec(tcp, [RecvError(errno)] + recvs, sends) == ForwardSpec(tcp, recvs, sends)
  {
    assert ([RecvError(errno)] + recvs)[1..] == recvs;
  }

  /** An empty datagram makes no send call and adds nothing to the stream. */
  lemma EmptyDatagramSendsNothing(tcp: int, recvs: seq<RecvResult>, sends: seq<SendResult>)
    ensures ForwardSpec(tcp, [Datagram([])] + recvs, sends) == ForwardSpec(tcp, recvs, sends)
  {
    assert ([Datagram([])] + recvs)[1..] == recvs;
    assert sends[0..] == sends;
  }

  /**
   * Against a sink that accepts at least one byte per write, with
   * interruptions in between, and answers at least as many writes as there
   * are bytes to forward, every datagram reaches the TCP stream in full and
   * in order.
   */
  lemma {:induction false} CooperativeSinkForwardsAll(tcp: int, recvs: seq<RecvResult>, sends: seq<SendResult>)
    requires Cooperative(sends) && Writes(sends) >= |Stream(recvs)|
    ensures ForwardSpec(tcp, recvs, sends) == ForwardRun(Stream(recvs), Listening, true)
    decreases |recvs|
  {
    if recvs != [] {
      match recvs[0]
      case RecvError(_) =>
        CooperativeSinkForwardsAll(tcp, recvs[1..], sends);
      case Datagram(payload) =>
        var d := Received(payload);
        CooperativeSinkFlushes(tcp, d, sends);
        var s := SendSpec(tcp, d, sends);
        CooperativeSuffix(sends, s.attempts);
        CooperativeSinkForwardsAll(tcp, recvs[1..], sends[s.attempts..]);
    }
  }

  lemma CooperativeSuffix(sends: seq<SendResult>, k: nat)
    requires Cooperative(sends) && k <= |sends|
    ensures Cooperative(sends[k..])
  {
    forall m | 0 <= m < |sends[k..]|
      ensures sends[k..][m] == Error(EINTR) || (sends[k..][m].Accepted? && sends[k..][m].capacity > 0)
    {
      assert sends[k..][m] == sends[k + m];
    }
  }
}
