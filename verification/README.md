# cu2t: a UDP-to-TCP relay, modelled in Dafny

cu2t is one C program. It listens for datagrams on a UDP socket and writes
the bytes of each datagram, unchanged, to one outbound TCP connection. It
runs forever. It exits with a failure status on a wrong argument count, an
unresolvable address, an address list in which no candidate can be
attached, or a send error other than an interrupted call.

The model replaces every system call with a scripted answer:

- `socket`, `setsockopt(SO_REUSEPORT)` and `bind`/`connect` answer per
  candidate address (`Attach.Candidate`).
- `getaddrinfo` answers with an error code and the ordered candidate list
  (`Attach.Lookup`).
- `send` answers from a sequence of `Send.SendResult`. `Accepted(c)`
  writes `min(c, remaining)` bytes, so `Accepted(0)` is the zero return.
  `Error(e)` is -1 with errno `e`.
- `recv` answers from a sequence of `Forward.RecvResult`.

A process exit is a `Process.Death` value. The descriptors the process
holds open are tracked as a ghost set.

Modules and files:

- `process.dfy` (`Process`): bytes, `BUF_SIZE`, `EINTR`, exit reasons, the exhaustion diagnostic.
- `attach.dfy` (`Attach`): `udp_listener`, `tcp_client`, the strategy dispatch, `setup_socket`.
- `send.dfy` (`Send`): `send_or_die`, with `SendSpec` as its specification function.
- `forward.dfy` (`Forward`): `recv` and the forward loop, with `ForwardSpec` as its specification function.
- `bridge.dfy` (`Bridge`): `main`, which composes these parts.

The imperative parts are methods. `SendOrDie` and `ForwardLoop` have
`while` loops. `SetupSocket` walks the candidate list and stops at the
first success. `Recv` overwrites a fixed `array<byte>` of 1024 bytes that
the loop allocates once. `SendOrDie` and `ForwardLoop` are proved equal to
recursive specification functions, and lemmas state the properties of those
functions. `SetupSocket`'s result is fixed by `FirstAttach`.

Three facts about the code deserve mention:

- `udp_listener` does not close its socket when `setsockopt` fails,
  although it closes it when `bind` fails (see Findings). The attach
  dispatch, `setup_socket` and `main` in this model use the corrected
  listener; see "## Left out".
- `send_or_die` makes no `send` call when `len` is 0: the `len != 0` test
  short-circuits (`EmptyDatagramSendsNothing`, `SendShape`).
- `setup_socket` exits before `freeaddrinfo` when every candidate fails.
  Memory is not modelled.

## Model

| member | source | states |
|---|---|---|
| `Process.AttachFailureMessage` | cu2t.c:114-117 | the diagnostic printed when every candidate fails contains `host:port` |
| `Attach.UdpListenerAsWritten` | cu2t.c:36-60 | returns a descriptor (the one `socket` gave) exactly when socket, setsockopt and bind all succeed, otherwise -1; a setsockopt failure leaves that descriptor open, a bind failure closes it |
| `Attach.UdpListener` | cu2t.c:36-60 | the same result, and a failed attempt leaves the open descriptors as they were, a success adds exactly the returned one (corrected: setsockopt failure closes the socket) |
| `Attach.TcpClient` | cu2t.c:66-81 | returns the socket's descriptor exactly when socket and connect succeed, otherwise -1; a connect failure closes the socket |
| `Attach.AttachWith` | cu2t.c:109 | calling the chosen strategy, listener or client, gives that strategy's all-steps-succeed result; a failed attempt leaves the open descriptors as they were (for the listener this is the corrected one; see Left out) |
| `Attach.FirstAttach` | cu2t.c:108-112 | the position of the first candidate whose attach succeeds: every candidate before it fails, and it equals the list length exactly when none succeeds |
| `Attach.SetupSocket` | cu2t.c:93-121 | a resolver error is fatal with its code before any candidate is tried; otherwise candidates are tried in order, every candidate before the chosen one failed, the descriptor of the first success is returned and no later candidate is tried; if none attaches (also for an empty list) the process exits naming host and port after trying all; the attempt count, incremented at each strategy call, is the position of the first attaching candidate plus one; only the returned descriptor stays open (with the corrected listener; see Left out) |
| `Send.SendReturn` | cu2t.c:131 | `send` returns -1 exactly on error, never more than the remaining length, and at least one byte when the sink accepts bytes |
| `Send.SendSpec` | cu2t.c:128-143 | a send_or_die run uses at most the scripted answers it is given |
| `Send.SendShape` | cu2t.c:131-142 | written chunks are non-empty and their concatenation is a prefix of the buffer; it is the whole buffer exactly when `len` reached 0; a zero return leaves a strict prefix; an empty buffer makes no send call; a fatal end names the socket and a non-EINTR errno |
| `Send.WriteAdvances` | cu2t.c:140-141 | a positive write sends the next `nw` bytes and leaves a strictly shorter remainder to the following calls |
| `Send.InterruptedSendRetries` | cu2t.c:132-134 | an EINTR failure consumes one call and changes neither offset nor remaining length |
| `Send.FailedSendIsFatal` | cu2t.c:135-138 | any other -1 result ends the process after that call, naming the socket and errno |
| `Send.SendOrDie` | cu2t.c:128-143 | the loop over offset and remaining length, with the remaining length as its variant (then the number of answers left, for interruptions), produces exactly the run `SendSpec` gives for `buf[..len]` |
| `Send.CooperativeSinkFlushes` | cu2t.c:131-142 | against a sink accepting at least one byte per write with interruptions in between, the whole buffer is delivered once enough writes are answered |
| `Forward.Received` | cu2t.c:146-162 | a received datagram is whole when it fits in `BUF_SIZE` bytes, and otherwise exactly its first `BUF_SIZE` bytes |
| `Forward.Recv` | cu2t.c:162 | a failed receive returns -1 and leaves the buffer alone; otherwise the front `n` bytes of the buffer are the received datagram and the rest of the buffer is unchanged |
| `Forward.ForwardSpec` | cu2t.c:161-170 | the forward loop ends the process only through a failed send on the TCP socket |
| `Forward.ForwardLoop` | cu2t.c:161-170 | the loop that receives into one reused buffer and calls send_or_die produces exactly the run `ForwardSpec` describes |
| `Forward.ForwardInOrder` | cu2t.c:161-170 | unless a send returned 0, the TCP stream is a prefix of the concatenated received datagrams, in order, and equals it when the loop is back waiting in `recv` |
| `Forward.FailedReceiveIsSkipped` | cu2t.c:164-167 | a failed receive forwards nothing, uses no send answer, and the following iterations run as if it had not happened |
| `Forward.EmptyDatagramSendsNothing` | cu2t.c:169 | an empty datagram makes no send call and adds nothing to the stream |
| `Forward.CooperativeSinkForwardsAll` | cu2t.c:161-170 | against a cooperative sink with enough writes, the TCP stream is exactly the in-order concatenation of the received datagrams and the loop is still running |
| `Bridge.Run` | cu2t.c:148-172 | a wrong argument count exits with the usage error; a UDP resolver error exits with its code and UDP exhaustion exits naming argv[1]:argv[2], then the same on the TCP side with argv[3]:argv[4], each before anything is forwarded; once both attach, the descriptors are those of the first attaching candidate of each list, exactly these two are added to the open set (with the corrected listener; see Left out), and the run is the forward loop's on the TCP descriptor, exiting only with a send failure on it |

## Findings

| source | as written | input that shows it | evidently intended | confidence | as-written member | corrected member |
|---|---|---|---|---|---|---|
| cu2t.c:47-51 | when `setsockopt` fails, `udp_listener` returns -1 without closing the socket it opened | a candidate whose `socket` returns 3 and whose `setsockopt` returns -1: descriptor 3 stays open while `setup_socket` moves on to the next candidate | close the descriptor, as the bind-failure branch does | high, not executed | `Attach.UdpListenerAsWritten` | `Attach.UdpListener` |

## Left out

- The system calls themselves (`getaddrinfo`, `socket`, `setsockopt`, `bind`, `connect`, `send`, `recv`, `close`) are scripted answers. Address families, socket types and the address bytes are not modelled.
- `freeaddrinfo` and other memory management are not modelled.
- The `SO_REUSEPORT` fan-out of datagrams across processes is kernel behaviour and concurrency between processes. It is not modelled.
- `MSG_NOSIGNAL` (a peer disconnect surfacing as EPIPE instead of SIGPIPE) is not modelled. It appears only as one more errno that ends the process.
- Diagnostic text from `perror`, `strerror` and `gai_strerror` is not modelled, except that the exhaustion message names `host:port`. This includes the misleading labels `tcp_client` prints.
- `while (1)` is infinite. The model runs one iteration per scripted `recv` answer. When the script of `send` answers runs out mid-send, the run ends as `Pending`, standing for a call that blocks forever.
- `send` returning more than the remaining length (the `size_t` underflow at cu2t.c:140) cannot happen in the model, because an answer writes at most the remaining length, as the kernel guarantees.
- The numeric value of `EINTR` is taken as 4 (Linux).
- The integer types of `n`, `len` and `nw` are unbounded. `recv` returns at most 1024 and -1, so no `int`/`size_t` conversion can overflow.
- `Forward.ForwardInOrder`: states nothing about a run in which a send returned 0. The bytes of that datagram after the zero return are silently dropped, and the next datagram is still forwarded.
- The kernel is assumed never to hand out a descriptor that is already open (`FreshDescriptors`). The open-descriptor contracts rely on this. `Bridge.Run` requires it of the TCP candidates against the descriptors open at start plus the attached UDP descriptor.
- Attach.AttachWith: the `Listener` strategy runs the corrected `UdpListener`, so its open-descriptor clause does not describe `udp_listener` as written, which leaves the socket open after a `setsockopt` failure (`UdpListenerAsWritten`).
- Attach.SetupSocket: "only the returned descriptor stays open" holds for the corrected listener; with `udp_listener` as written, each tried candidate whose `setsockopt` failed also leaves its descriptor open.
- Bridge.Run: "exactly the two attached descriptors are added" holds for the corrected listener; as written, UDP candidates whose `setsockopt` failed also stay open.
