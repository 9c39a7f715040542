/**
 * Values shared by every part of the UDP-to-TCP bridge model: bytes, the
 * reasons the process can exit with a failure status, and helpers on byte
 * streams.
 *
 * The bridge never reports an error to a caller: every fatal condition ends
 * the process. The model makes that exit a value (`Death`) so that each fatal
 * path can be told apart from the recoverable ones.
 */
module Process {

  /** One octet of a datagram or of the TCP stream. */
  newtype byte = b: int | 0 <= b < 256

  /** Capacity of the receive buffer of the forward loop. */
  const BUF_SIZE: nat := 1024

  /** The errno value of an interrupted system call (Linux numbering). */
  const EINTR: int := 4

  /** Why the process exits with EXIT_FAILURE. */
  datatype Death =
    | Usage                                  // argument count other than four
    | ResolveFailed(code: int)               // getaddrinfo returned `code` != 0
    | AttachFailed(host: string, port: string) // no candidate address could be attached; see AttachFailureMessage
    | SendFailed(fd: int, errno: int)        // send failed with an errno other than EINTR

  /** The bytes of consecutive chunks, in order. */
  function Flatten(chunks: seq<seq<byte>>): seq<byte>
  {
    if chunks == [] then [] else chunks[0] + Flatten(chunks[1..])
  }

  lemma {:induction false} FlattenAppend(a: seq<seq<byte>>, b: seq<seq<byte>>)
    ensures Flatten(a + b) == Flatten(a) + Flatten(b)
  {
    if a != [] {
      assert (a + b)[0] == a[0] && (a + b)[1..] == a[1..] + b;
      FlattenAppend(a[1..], b);
      assert Flatten(a + b) == a[0] + (Flatten(a[1..]) + Flatten(b));
    } else {
      assert a + b == b;
    }
  }

  /** `s` contains `x` as a contiguous piece. */
  predicate Mentions(s: string, x: string)
  {
    exists i, j :: 0 <= i <= j <= |s| && s[i..j] == x
  }

  /**
   * The diagnostic written to standard error when every candidate address
   * of `host`:`port` failed to attach. It names the pair it was asked for.
   */
  function AttachFailureMessage(host: string, port: string): (m: string)
    ensures Mentions(m, host + ":" + port)
    ensures |m| > |host| + |port|
  {
    var m := "failed to attach " + host + ":" + port + "\n";
    assert m[17..17 + |host + ":" + port|] == host + ":" + port;
    m
  }
}
