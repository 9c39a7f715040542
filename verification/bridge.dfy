/**
 * The program as a whole: check the argument count, attach the UDP
 * listener, attach the TCP client, then run the forward loop.
 */
module Bridge {
  import opened Process
  import opened Attach
  import opened Send
  import opened Forward

  /** getaddrinfo succeeded and some candidate attaches with the strategy. */
  predicate Ready(strategy: Strategy, lookup: Lookup)
  {
    lookup.err == 0 && FirstAttach(strategy, lookup.candidates) < |lookup.candidates|
  }

  /** The descriptor setup_socket returns when the lookup is ready: that of the first candidate that attaches. */
  function Chosen(strategy: Strategy, lookup: Lookup): (fd: int)
    requires Ready(strategy, lookup)
    ensures fd != -1
  {
    lookup.candidates[FirstAttach(strategy, lookup.candidates)].socketRet
  }

  /** Why setup_socket ends the process when the lookup is not ready. */
  function SetupDeath(strategy: Strategy, host: string, port: string, lookup: Lookup): (d: Death)
    requires !Ready(strategy, lookup)
    ensures d == ResolveFailed(lookup.err) <==> lookup.err != 0
    ensures d == AttachFailed(host, port) <==> lookup.err == 0
  {
    if lookup.err != 0 then ResolveFailed(lookup.err) else AttachFailed(host, port)
  }

  /**
   * main(argc, argv) with `args` standing for argv. A wrong argument count,
   * a resolver error (reported by its code) or an exhausted candidate list
   * (reported as argv[1]:argv[2] on the UDP side, then argv[3]:argv[4] on the
   * TCP side) each end the process before anything is forwarded. Once both sockets are
   * attached, to the first candidate of each list that attaches, exactly
   * these two descriptors have been added to those open at start and the
   * run is the forward loop's on the TCP descriptor.
   */
  method Run(args: seq<string>, udpLookup: Lookup, tcpLookup: Lookup,
             recvs: seq<RecvResult>, sends: seq<SendResult>, ghost open: set<int>)
    returns (run: ForwardRun, ghost open': set<int>)
    requires FreshDescriptors(udpLookup.candidates, open)
    requires Ready(Listener, udpLookup) ==> FreshDescriptors(tcpLookup.candidates, open + {Chosen(Listener, udpLookup)})
    ensures |args| != 5 ==> run == ForwardRun([], Exited(Usage), true)
    ensures |args| == 5 && !Ready(Listener, udpLookup) ==>
              run == ForwardRun([], Exited(SetupDeath(Listener, args[1], args[2], udpLookup)), true)
    ensures |args| == 5 && Ready(Listener, udpLookup) && !Ready(Client, tcpLookup) ==>
              run == ForwardRun([], Exited(SetupDeath(Client, args[3], args[4], tcpLookup)), true)
    ensures |args| == 5 && Ready(Listener, udpLookup) && Ready(Client, tcpLookup) ==>
              var tcp := Chosen(Client, tcpLookup);
              run == ForwardSpec(tcp, recvs, sends)
              && (run.end.Exited? ==> run.end.death.SendFailed? && run.end.death.fd == tcp)
    ensures open' == if |args| != 5 || !Ready(Listener, udpLookup) then open
                     else if !Ready(Client, tcpLookup) then open + {Chosen(Listener, udpLookup)}
                     else open + {Chosen(Listener, udpLookup), Chosen(Client, tcpLookup)}
    ensures |args| == 5 && Ready(Listener, udpLookup) && Ready(Client, tcpLookup) ==>
              Chosen(Listener, udpLookup) != Chosen(Client, tcpLookup)
  {
    if |args| != 5 {
      return ForwardRun([], Exited(Usage), true), open;
    }
    var udp; ghost var tried1;
    udp, open', tried1 := SetupSocket(args[1], args[2], Listener, udpLookup, open);
    if udp.Exit? {
      return ForwardRun([], Exited(udp.death), true), open';
    }
    var tcp; ghost var tried2;
    tcp, open', tried2 := SetupSocket(args[3], args[4], Client, tcpLookup, open');
    if tcp.Exit? {
      return ForwardRun([], Exited(tcp.death), true), open';
    }
    run := ForwardLoop(tcp.fd, recvs, sends);
  }
}
