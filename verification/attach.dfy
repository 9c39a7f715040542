/**
 * Socket acquisition: resolve a host and port to candidate addresses and
 * attach a socket to the first candidate that accepts it.
 *
 * The operating system is replaced by scripted answers. For each candidate
 * address the script says what `socket`, `setsockopt(SO_REUSEPORT)` and
 * `bind` (or `connect`) return when called on it. The descriptors this
 * process holds open are tracked as a ghost set, so that the contracts can
 * say which failure paths close the socket they opened.
 */
module Attach {
  import opened Process

  /**
   * The answers the operating system gives for one candidate address:
   * `socketRet` is the result of `socket` (-1 on failure, otherwise the new
   * descriptor), `reuseRet` the result of `setsockopt` (0 on success), and
   * `attachRet` the result of `bind` for a listener or of `connect` for a
   * client (0 on success).
   */
  datatype Candidate = Candidate(socketRet: int, reuseRet: int, attachRet: int)

  /** The outcome of getaddrinfo: an error code (0 on success) and the addresses, in its order. */
  datatype Lookup = Lookup(err: int, candidates: seq<Candidate>)

  /** The two attach strategies handed to setup_socket. */
  datatype Strategy = Listener | Client

  /** What setup_socket produces: a ready descriptor, or the process exits. */
  datatype Setup = Attached(fd: int) | Exit(death: Death)

  /** The strategy gets a descriptor from this candidate: every one of its steps succeeds. */
  predicate Attaches(strategy: Strategy, c: Candidate)
  {
    match strategy
    case Listener => c.socketRet != -1 && c.reuseRet == 0 && c.attachRet == 0
    case Client => c.socketRet != -1 && c.attachRet == 0
  }

  /**
   * The position of the first candidate the strategy attaches, or the
   * length of the list when none does.
   */
  function FirstAttach(strategy: Strategy, candidates: seq<Candidate>): (i: nat)
    ensures i <= |candidates|
    ensures forall j :: 0 <= j < i ==> !Attaches(strategy, candidates[j])
    ensures i < |candidates| ==> Attaches(strategy, candidates[i])
    ensures i == |candidates| <==> forall j :: 0 <= j < |candidates| ==> !Attaches(strategy, candidates[j])
  {
    if candidates == [] then 0
    else if Attaches(strategy, candidates[0]) then 0
    else
      var rest := FirstAttach(strategy, candidates[1..]);
      assert forall j :: 1 <= j < |candidates| ==> candidates[j] == candidates[1..][j - 1];
      1 + rest
  }

  /** The kernel never hands out a descriptor that is already open. */
  predicate FreshDescriptors(candidates: seq<Candidate>, open: set<int>)
  {
    forall i :: 0 <= i < |candidates| ==> candidates[i].socketRet == -1 || candidates[i].socketRet !in open
  }

  /**
   * udp_listener exactly as written: a socket whose setsockopt call fails is
   * given up on without being closed, so its descriptor stays open.
   */
  method UdpListenerAsWritten(c: Candidate, ghost open: set<int>) returns (fd: int, ghost open': set<int>)
    requires c.socketRet == -1 || c.socketRet !in open
    ensures fd != -1 <==> Attaches(Listener, c)
    ensures fd != -1 ==> fd == c.socketRet && open' == open + {fd}
    ensures c.socketRet != -1 && c.reuseRet != 0 ==> fd == -1 && open' == open + {c.socketRet}
    ensures c.socketRet == -1 || (c.reuseRet == 0 && c.attachRet != 0) ==> fd == -1 && open' == open
  {
    open' := open;
    fd := c.socketRet;
    if fd == -1 {
      return -1, open';
    }
    open' := open' + {fd};
    var err := c.reuseRet;
    if err != 0 {
      return -1, open';
    }
    if c.attachRet == 0 {
      return fd, open';
    }
    open' := open' - {fd};
    fd := -1;
  }

  /**
   * udp_listener with the descriptor closed on setsockopt failure, as it is
   * on bind failure: a failed attempt leaves no descriptor open.
   */
  method UdpListener(c: Candidate, ghost open: set<int>) returns (fd: int, ghost open': set<int>)
    requires c.socketRet == -1 || c.socketRet !in open
    ensures fd != -1 <==> Attaches(Listener, c)
    ensures fd != -1 ==> fd == c.socketRet
    ensures open' == if fd != -1 then open + {fd} else open
  {
    open' := open;
    fd := c.socketRet;
    if fd == -1 {
      return -1, open';
    }
    open' := open' + {fd};
    var err := c.reuseRet;
    if err != 0 {
      open' := open' - {fd};
      return -1, open';
    }
    if c.attachRet == 0 {
      return fd, open';
    }
    open' := open' - {fd};
    fd := -1;
  }

  /** tcp_client: open a stream socket and connect it, closing it if connect fails. */
  method TcpClient(c: Candidate, ghost open: set<int>) returns (fd: int, ghost open': set<int>)
    requires c.socketRet == -1 || c.socketRet !in open
    ensures fd != -1 <==> Attaches(Client, c)
    ensures fd != -1 ==> fd == c.socketRet
    ensures open' == if fd != -1 then open + {fd} else open
  {
    open' := open;
    fd := c.socketRet;
    if fd == -1 {
      return -1, open';
    }
    open' := open' + {fd};
    if c.attachRet == 0 {
      return fd, open';
    }
    open' := open' - {fd};
    fd := -1;
  }

  /** Calls the strategy setup_socket was given on one candidate. */
  method AttachWith(strategy: Strategy, c: Candidate, ghost open: set<int>) returns (fd: int, ghost open': set<int>)
    requires c.socketRet == -1 || c.socketRet !in open
    ensures fd != -1 <==> Attaches(strategy, c)
    ensures fd != -1 ==> fd == c.socketRet
    ensures open' == if fd != -1 then open + {fd} else open
  {
    match strategy
    case Listener =>
      fd, open' := UdpListener(c, open);
    case Client =>
      fd, open' := TcpClient(c, open);
  }

  /**
   * setup_socket: candidates are tried in the resolver's order and the first
   * descriptor that is not -1 is returned; `tried` is the number of
   * candidates the strategy was called on. A resolver error, or a list in
   * which no candidate attaches, ends the process; in the latter case the
   * diagnostic is AttachFailureMessage(host, port).
   */
  method SetupSocket(host: string, port: string, strategy: Strategy, lookup: Lookup, ghost open: set<int>)
    returns (r: Setup, ghost open': set<int>, ghost tried: nat)
    requires FreshDescriptors(lookup.candidates, open)
    ensures lookup.err != 0 ==> r == Exit(ResolveFailed(lookup.err)) && tried == 0
    ensures lookup.err == 0 ==> tried <= |lookup.candidates|
    ensures lookup.err == 0 ==> (r.Attached? <==> FirstAttach(strategy, lookup.candidates) < |lookup.candidates|)
    ensures r.Attached? ==> tried == FirstAttach(strategy, lookup.candidates) + 1
    ensures lookup.err == 0 ==> forall j :: 0 <= j < tried - 1 ==> !Attaches(strategy, lookup.candidates[j])
    ensures r.Attached? <==> lookup.err == 0 && exists i :: 0 <= i < |lookup.candidates| && Attaches(strategy, lookup.candidates[i])
    ensures r.Attached? ==> 0 < tried && Attaches(strategy, lookup.candidates[tried - 1])
                            && r.fd == lookup.candidates[tried - 1].socketRet && r.fd != -1
    ensures r == Exit(AttachFailed(host, port)) <==> lookup.err == 0 && !r.Attached?
    ensures r == Exit(AttachFailed(host, port)) ==> tried == |lookup.candidates|
    ensures open' == if r.Attached? then open + {r.fd} else open
  {
    open' := open;
    if lookup.err != 0 {
      return Exit(ResolveFailed(lookup.err)), open', 0;
    }
    var candidates := lookup.candidates;
    var fd := -1;
    var p := 0;
    tried := 0;
    while p < |candidates|
      invariant 0 <= p <= |candidates|
      invariant forall j :: 0 <= j < p ==> !Attaches(strategy, candidates[j])
      invariant open' == open
      invariant tried == p
    {
      fd, open' := AttachWith(strategy, candidates[p], open');
      tried := tried + 1;
      if fd != -1 {
        break;
      }
      p := p + 1;
    }
    if p == |candidates| {
      return Exit(AttachFailed(host, port)), open', tried;
    }
    r := Attached(fd);
  }
}
