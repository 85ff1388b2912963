/**
 * The PING handshake across a network that may lose, copy and reorder datagrams: clients in connect,
 * servers of either kind answering, and applications that leave the PING ids alone.
 */
module Handshake {
  import opened Wrappers
  import opened Identifiers
  import opened Messages
  import opened Sockets
  import opened ReceiveSpec
  import opened Client

  datatype Packet = Packet(src: Identifier, dst: Identifier, reqId: Word32)

  /**
   * The addresses servers answer from, and for each client's address the identifier it was created with. A server also
   * receives what is sent to an address that compares equal: a multicast group or the broadcast address on its port.
   */
  datatype Config = Config(servers: set<Identifier>, target: map<Identifier, Identifier>)

  datatype State = State(
    net: multiset<Packet>,                           // in flight
    sent: multiset<Packet>,
    copied: multiset<Packet>,                        // duplicates the network made
    received: multiset<Packet>,
    lost: multiset<Packet>,
    handled: multiset<(Identifier, Identifier)>,     // (server, client) for each PING_REQ a server took
    answered: multiset<(Identifier, Identifier)>,    // those whose PING_RSP could be sent
    connecting: set<Identifier>,
    connected: set<Identifier>)                      // clients whose connect has returned true

  datatype Step =
    | BeginConnect(c: Identifier)
    | GiveUp(c: Identifier)
    | SendPing(c: Identifier)
    | AppSend(p: Packet)
    | Lose(p: Packet)
    | Copy(p: Packet)
    | ServerReceive(s: Identifier, p: Packet, answerSent: bool)
    | ClientReceive(c: Identifier, p: Packet)

  const INIT: State :=
    State(multiset{}, multiset{}, multiset{}, multiset{}, multiset{}, multiset{}, multiset{}, {}, {})

  function Ping(cfg: Config, c: Identifier): Packet
    requires c in cfg.target
  {
    Packet(c, cfg.target[c], IPC_PING_REQ)
  }

  function Pong(s: Identifier, c: Identifier): Packet {
    Packet(s, c, IPC_PING_RSP)
  }

  predicate Enabled(cfg: Config, s: State, step: Step) {
    match step
    case BeginConnect(c) => c in cfg.target
    case GiveUp(c) => c in s.connecting
    case SendPing(c) => c in s.connecting && c in cfg.target
    case AppSend(p) => p.reqId != IPC_PING_REQ && p.reqId != IPC_PING_RSP
    case Lose(p) => p in s.net
    case Copy(p) => p in s.net
    case ServerReceive(srv, p, _) => srv in cfg.servers && p in s.net && Same(srv, p.dst)
    case ClientReceive(c, p) => c in cfg.target && p in s.net && p.dst == c
  }

  /** The filter of the client's receive inside connect. */
  predicate Accepts(cfg: Config, s: State, c: Identifier, p: Packet)
    requires c in cfg.target
  {
    c in s.connecting
    && Matches(Received(RawMessage(p.reqId, []), p.src), Selector([IPC_PING_RSP], Some(cfg.target[c])))
  }

  function Transmit(s: State, p: Packet): State {
    s.(net := s.net + multiset{p}, sent := s.sent + multiset{p})
  }

  function Consume(s: State, p: Packet): State {
    s.(net := s.net - multiset{p}, received := s.received + multiset{p})
  }

  function Apply(cfg: Config, s: State, step: Step): State
    requires Enabled(cfg, s, step)
  {
    match step
    case BeginConnect(c) => s.(connecting := s.connecting + {c})
    case GiveUp(c) => s.(connecting := s.connecting - {c})
    case SendPing(c) => Transmit(s, Ping(cfg, c))
    case AppSend(p) => Transmit(s, p)
    case Lose(p) => s.(net := s.net - multiset{p}, lost := s.lost + multiset{p})
    case Copy(p) => s.(net := s.net + multiset{p}, copied := s.copied + multiset{p})
    case ServerReceive(srv, p, answerSent) =>
      var taken := Consume(s, p);
      if p.reqId != IPC_PING_REQ then taken
      else
        var noted := taken.(handled := s.handled + multiset{(srv, p.src)});
        if answerSent then Transmit(noted, Pong(srv, p.src)).(answered := s.answered + multiset{(srv, p.src)})
        else noted
    case ClientReceive(c, p) =>
      var taken := Consume(s, p);
      if Accepts(cfg, s, c, p) then taken.(connecting := s.connecting - {c}, connected := s.connected + {c})
      else taken
  }

  function Exec(cfg: Config, steps: seq<Step>): Option<State> {
    if steps == [] then Some(INIT) else
      var before := Exec(cfg, steps[..|steps| - 1]);
      var step := steps[|steps| - 1];
      if before.Some? && Enabled(cfg, before.value, step) then Some(Apply(cfg, before.value, step)) else None
  }

  ghost predicate Reachable(cfg: Config, s: State) {
    exists steps :: Exec(cfg, steps) == Some(s)
  }

  // ---------------------------------------------------------------- invariants

  predicate FlowAt(s: State, p: Packet) {
    s.net[p] + s.received[p] + s.lost[p] == s.sent[p] + s.copied[p] && (s.copied[p] > 0 ==> s.sent[p] > 0)
  }

  /** No datagram appears or vanishes unaccounted for. */
  ghost predicate Flow(s: State) {
    forall p :: FlowAt(s, p)
  }

  predicate RequestAt(cfg: Config, s: State, p: Packet) {
    p in s.sent && p.reqId == IPC_PING_REQ ==> p.src in cfg.target && p == Ping(cfg, p.src)
  }

  predicate AnswersAt(s: State, srv: Identifier, c: Identifier) {
    s.sent[Pong(srv, c)] == s.answered[(srv, c)] <= s.handled[(srv, c)]
  }

  predicate HandledAt(cfg: Config, s: State, srv: Identifier, c: Identifier) {
    && ((srv, c) in s.handled ==> srv in cfg.servers && c in cfg.target && Same(srv, cfg.target[c]))
    && (c in cfg.target ==> s.handled[(srv, c)] <= s.received[Ping(cfg, c)])
  }

  /** PING requests go from a client to its target; PING responses answer one that arrived. */
  ghost predicate Roles(cfg: Config, s: State) {
    && (forall p :: RequestAt(cfg, s, p))
    && (forall srv, c :: AnswersAt(s, srv, c))
    && (forall srv, c :: HandledAt(cfg, s, srv, c))
  }

  ghost predicate Handled(cfg: Config, s: State, c: Identifier) {
    exists srv :: (srv, c) in s.handled && c in cfg.target && Same(srv, cfg.target[c])
  }

  ghost predicate Causality(cfg: Config, s: State) {
    forall c :: c in s.connected ==> Handled(cfg, s, c)
  }

  lemma TransmitKeepsFlow(s: State, p: Packet, q: Packet)
    requires FlowAt(s, p)
    ensures FlowAt(Transmit(s, q), p)
  {
  }

  lemma ConsumeKeepsFlow(s: State, p: Packet, q: Packet)
    requires FlowAt(s, p) && q in s.net
    ensures FlowAt(Consume(s, q), p)
  {
  }

  lemma FlowKeptAt(cfg: Config, s: State, step: Step, p: Packet)
    requires FlowAt(s, p) && Enabled(cfg, s, step)
    ensures FlowAt(Apply(cfg, s, step), p)
  {
    match step
    case SendPing(c) => TransmitKeepsFlow(s, p, Ping(cfg, c));
    case AppSend(q) => TransmitKeepsFlow(s, p, q);
    case ServerReceive(srv, q, _) =>
      ConsumeKeepsFlow(s, p, q);
      TransmitKeepsFlow(Consume(s, q), p, Pong(srv, q.src));
    case ClientReceive(_, q) => ConsumeKeepsFlow(s, p, q);
    case _ =>
  }

  // A packet in flight was sent by somebody.
  lemma InFlightWasSent(s: State, p: Packet)
    requires FlowAt(s, p) && p in s.net
    ensures p in s.sent
  {
  }

  lemma RequestKeptAt(cfg: Config, s: State, step: Step, p: Packet)
    requires RequestAt(cfg, s, p) && Enabled(cfg, s, step)
    ensures RequestAt(cfg, Apply(cfg, s, step), p)
  {
  }

  // Only an answering server puts a PING_RSP on the network.
  lemma AnswersAfterPing(cfg: Config, s: State, step: Step, srv: Identifier, c: Identifier)
    requires AnswersAt(s, srv, c) && Enabled(cfg, s, step)
    requires step.ServerReceive? && step.p.reqId == IPC_PING_REQ
    ensures AnswersAt(Apply(cfg, s, step), srv, c)
  {
    var s' := Apply(cfg, s, step);
    var pair := (step.s, step.p.src);
    assert s'.handled == s.handled + multiset{pair};
    if step.answerSent {
      assert s'.answered == s.answered + multiset{pair} && s'.sent == s.sent + multiset{Pong(pair.0, pair.1)};
      assert Pong(srv, c) == Pong(pair.0, pair.1) <==> (srv, c) == pair;
    } else {
      assert s'.answered == s.answered && s'.sent == s.sent;
    }
  }

  lemma AnswersKeptAt(cfg: Config, s: State, step: Step, srv: Identifier, c: Identifier)
    requires AnswersAt(s, srv, c) && Enabled(cfg, s, step)
    ensures AnswersAt(Apply(cfg, s, step), srv, c)
  {
    var s' := Apply(cfg, s, step);
    if step.ServerReceive? && step.p.reqId == IPC_PING_REQ {
      AnswersAfterPing(cfg, s, step, srv, c);
    } else {
      assert s'.answered == s.answered && s'.handled == s.handled;
      if step.SendPing? {
        assert s'.sent == s.sent + multiset{Ping(cfg, step.c)};
      } else if step.AppSend? {
        assert s'.sent == s.sent + multiset{step.p};
      } else {
        assert s'.sent == s.sent;
      }
    }
  }

  lemma HandledAfterPing(cfg: Config, s: State, step: Step, srv: Identifier, c: Identifier)
    requires HandledAt(cfg, s, srv, c) && Enabled(cfg, s, step)
    requires step.ServerReceive? && step.p.reqId == IPC_PING_REQ && RequestAt(cfg, s, step.p) && step.p in s.sent
    ensures HandledAt(cfg, Apply(cfg, s, step), srv, c)
  {
    var s' := Apply(cfg, s, step);
    var client := step.p.src;
    assert step.p == Ping(cfg, client);
    assert s'.received == s.received + multiset{step.p} && s'.handled == s.handled + multiset{(step.s, client)};
    if (srv, c) == (step.s, client) {
      assert s'.handled[(srv, c)] == s.handled[(srv, c)] + 1;
      assert s'.received[Ping(cfg, c)] == s.received[Ping(cfg, c)] + 1;
    } else {
      assert s'.handled[(srv, c)] == s.handled[(srv, c)];
    }
  }

  lemma ReceivedGrows(cfg: Config, s: State, step: Step, p: Packet)
    requires Enabled(cfg, s, step)
    ensures s.received[p] <= Apply(cfg, s, step).received[p]
  {
    if step.ServerReceive? || step.ClientReceive? {
      assert Apply(cfg, s, step).received == s.received + multiset{step.p};
    } else {
      assert Apply(cfg, s, step).received == s.received;
    }
  }

  lemma HandledKeptAt(cfg: Config, s: State, step: Step, srv: Identifier, c: Identifier)
    requires HandledAt(cfg, s, srv, c) && Enabled(cfg, s, step)
    requires step.ServerReceive? ==> FlowAt(s, step.p) && RequestAt(cfg, s, step.p)
    ensures HandledAt(cfg, Apply(cfg, s, step), srv, c)
  {
    if step.ServerReceive? && step.p.reqId == IPC_PING_REQ {
      InFlightWasSent(s, step.p);
      HandledAfterPing(cfg, s, step, srv, c);
    } else {
      assert Apply(cfg, s, step).handled == s.handled;
      if c in cfg.target {
        ReceivedGrows(cfg, s, step, Ping(cfg, c));
      }
    }
  }

  lemma FlowAndRolesKept(cfg: Config, s: State, step: Step)
    requires Flow(s) && Roles(cfg, s) && Enabled(cfg, s, step)
    ensures var s' := Apply(cfg, s, step); Flow(s') && Roles(cfg, s')
  {
    forall p
      ensures FlowAt(Apply(cfg, s, step), p) && RequestAt(cfg, Apply(cfg, s, step), p)
    {
      FlowKeptAt(cfg, s, step, p);
      RequestKeptAt(cfg, s, step, p);
    }
    forall srv, c
      ensures AnswersAt(Apply(cfg, s, step), srv, c) && HandledAt(cfg, Apply(cfg, s, step), srv, c)
    {
      AnswersKeptAt(cfg, s, step, srv, c);
      HandledKeptAt(cfg, s, step, srv, c);
    }
  }

  lemma CausalityKept(cfg: Config, s: State, step: Step)
    requires Flow(s) && Roles(cfg, s) && Causality(cfg, s) && Enabled(cfg, s, step)
    ensures Causality(cfg, Apply(cfg, s, step))
  {
    forall c | c in Apply(cfg, s, step).connected
      ensures Handled(cfg, Apply(cfg, s, step), c)
    {
      if c in s.connected {
        StaysHandled(cfg, s, step, c);
      } else {
        NewlyConnected(cfg, s, step);
      }
    }
  }

  lemma StaysHandled(cfg: Config, s: State, step: Step, c: Identifier)
    requires Handled(cfg, s, c) && Enabled(cfg, s, step)
    ensures Handled(cfg, Apply(cfg, s, step), c)
  {
    var s' := Apply(cfg, s, step);
    if step.ServerReceive? && step.p.reqId == IPC_PING_REQ {
      assert s'.handled == s.handled + multiset{(step.s, step.p.src)};
    } else {
      assert s'.handled == s.handled;
    }
    var srv :| (srv, c) in s.handled && c in cfg.target && Same(srv, cfg.target[c]);
    assert (srv, c) in s'.handled;
  }

  lemma NewlyConnected(cfg: Config, s: State, step: Step)
    requires Flow(s) && Roles(cfg, s) && Enabled(cfg, s, step)
    requires step.ClientReceive? && Accepts(cfg, s, step.c, step.p)
    ensures Handled(cfg, Apply(cfg, s, step), step.c)
  {
    var srv := step.p.src;
    assert FlowAt(s, step.p);
    InFlightWasSent(s, step.p);
    assert step.p == Pong(srv, step.c);
    assert AnswersAt(s, srv, step.c);
    assert (srv, step.c) in s.handled;
  }

  lemma {:induction false} RunKeepsInv(cfg: Config, steps: seq<Step>)
    requires Exec(cfg, steps).Some?
    ensures var s := Exec(cfg, steps).value; Flow(s) && Roles(cfg, s) && Causality(cfg, s)
  {
    if steps != [] {
      var s := Exec(cfg, steps[..|steps| - 1]).value;
      RunKeepsInv(cfg, steps[..|steps| - 1]);
      FlowAndRolesKept(cfg, s, steps[|steps| - 1]);
      CausalityKept(cfg, s, steps[|steps| - 1]);
    }
  }

  lemma ReachableInv(cfg: Config, s: State)
    requires Reachable(cfg, s)
    ensures Flow(s) && Roles(cfg, s) && Causality(cfg, s)
  {
    var steps :| Exec(cfg, steps) == Some(s);
    RunKeepsInv(cfg, steps);
  }

  // ---------------------------------------------------------------- what every run guarantees

  /** No server but the one named compares equal to what the client was created with. */
  predicate NamesOneServer(cfg: Config, c: Identifier)
    requires c in cfg.target
  {
    forall srv :: srv in cfg.servers && Same(srv, cfg.target[c]) ==> srv == cfg.target[c]
  }

  /**
   * A connect that returned true was preceded by a server handling a PING_REQ from that very client, sent
   * to the identifier the client was created with; if that names one server, it was that server.
   */
  lemma ConnectedMeansHandled(cfg: Config, s: State, c: Identifier)
    requires Reachable(cfg, s) && c in s.connected
    ensures c in cfg.target && Ping(cfg, c) in s.received && Ping(cfg, c) in s.sent
    ensures Handled(cfg, s, c)
    ensures NamesOneServer(cfg, c) ==> (cfg.target[c], c) in s.handled
  {
    ReachableInv(cfg, s);
    HandledMeans(cfg, s, c);
  }

  lemma HandledMeans(cfg: Config, s: State, c: Identifier)
    requires Flow(s) && Roles(cfg, s) && Handled(cfg, s, c)
    ensures c in cfg.target && Ping(cfg, c) in s.received && Ping(cfg, c) in s.sent
    ensures NamesOneServer(cfg, c) ==> (cfg.target[c], c) in s.handled
  {
    var srv :| (srv, c) in s.handled && c in cfg.target && Same(srv, cfg.target[c]);
    assert HandledAt(cfg, s, srv, c);
    assert FlowAt(s, Ping(cfg, c));
  }

  /** What connect is meant to establish: whenever it has returned true, the server it names had handled the PING. */
  ghost predicate ProvesNamedServer(cfg: Config, c: Identifier)
    requires c in cfg.target
  {
    forall s :: Reachable(cfg, s) && c in s.connected ==> (cfg.target[c], c) in s.handled
  }

  /** A datagram comes from a unicast address, also when its sender receives multicast or broadcast. */
  predicate UnicastServers(cfg: Config) {
    forall srv :: srv in cfg.servers ==> IsUnicast(srv)
  }

  /**
   * connect tells the truth about the server it names when no other server compares equal to the identifier, and
   * only then: otherwise that other server may be the one that answers.
   */
  lemma NamedServerExactly(cfg: Config, c: Identifier)
    requires c in cfg.target
    ensures NamesOneServer(cfg, c) ==> ProvesNamedServer(cfg, c)
    ensures UnicastServers(cfg) ==> (ProvesNamedServer(cfg, c) <==> NamesOneServer(cfg, c))
  {
    if NamesOneServer(cfg, c) {
      forall s | Reachable(cfg, s) && c in s.connected
        ensures (cfg.target[c], c) in s.handled
      {
        ConnectedMeansHandled(cfg, s, c);
      }
    } else if UnicastServers(cfg) {
      var srv :| srv in cfg.servers && Same(srv, cfg.target[c]) && srv != cfg.target[c];
      var s := AnsweredByAnother(cfg, c, srv);
    }
  }

  lemma AfterStep(cfg: Config, s: State, step: Step) returns (s': State)
    requires Reachable(cfg, s) && Enabled(cfg, s, step)
    ensures s' == Apply(cfg, s, step) && Reachable(cfg, s')
  {
    var steps :| Exec(cfg, steps) == Some(s);
    s' := Apply(cfg, s, step);
    assert (steps + [step])[..|steps|] == steps;
    assert Exec(cfg, steps + [step]) == Some(s');
  }

  // A run in which one PING_REQ is on its way and nothing else has happened.
  lemma PingOnItsWay(cfg: Config, c: Identifier) returns (s: State)
    requires c in cfg.target
    ensures Reachable(cfg, s) && s.net == s.sent == multiset{Ping(cfg, c)} && s.connecting == {c}
    ensures s.handled == s.answered == multiset{}
  {
    assert Exec(cfg, []) == Some(INIT);
    s := AfterStep(cfg, INIT, BeginConnect(c));
    s := AfterStep(cfg, s, SendPing(c));
  }

  // ... and one in which a server has answered it.
  lemma PongOnItsWay(cfg: Config, c: Identifier, srv: Identifier) returns (s: State)
    requires c in cfg.target && srv in cfg.servers && Same(srv, cfg.target[c])
    ensures Reachable(cfg, s) && s.handled == multiset{(srv, c)} && s.connecting == {c} && Pong(srv, c) in s.net
  {
    var ping := Ping(cfg, c);
    var asked := PingOnItsWay(cfg, c);
    assert ping in asked.net;
    s := AfterStep(cfg, asked, ServerReceive(srv, ping, true));
    assert s.handled == asked.handled + multiset{(srv, c)};
    assert s.net == (asked.net - multiset{ping}) + multiset{Pong(srv, c)};
  }

  /** The run in which another server answers first: one PING_REQ, handled there, and its PING_RSP received. */
  lemma AnsweredByAnother(cfg: Config, c: Identifier, srv: Identifier) returns (s: State)
    requires c in cfg.target && srv in cfg.servers && IsUnicast(srv) && Same(srv, cfg.target[c]) && srv != cfg.target[c]
    ensures Reachable(cfg, s) && c in s.connected && (cfg.target[c], c) !in s.handled
  {
    var answered := PongOnItsWay(cfg, c, srv);
    assert Accepts(cfg, answered, c, Pong(srv, c));
    s := AfterStep(cfg, answered, ClientReceive(c, Pong(srv, c)));
    assert s.handled == answered.handled;
  }

  /** Of servers with unicast addresses a unicast identifier names one; a multicast or broadcast one names all on its port. */
  lemma WhoIsNamed(cfg: Config, c: Identifier)
    requires c in cfg.target && UnicastServers(cfg)
    ensures IsUnicast(cfg.target[c]) ==> NamesOneServer(cfg, c)
    ensures !IsUnicast(cfg.target[c]) ==>
              (NamesOneServer(cfg, c) <==>
                 forall srv :: srv in cfg.servers && srv.PortInfo? ==> srv.port != cfg.target[c].port)
  {
  }

  /** For instance a client of the group 239.0.0.1, port 9, with a server on that port. */
  lemma GroupConnect(c: Identifier, inetPton: InetPton) returns (cfg: Config, s: State)
    requires inetPton("239.0.0.1") == Some(0xEF00_0001) && inetPton("10.0.0.1") == Some(0x0A00_0001)
    ensures cfg.target == map[c := MakePortInfo("239.0.0.1", 9, inetPton)]
    ensures cfg.servers == {MakePortInfo("10.0.0.1", 9, inetPton)}
    ensures Reachable(cfg, s) && c in s.connected && (cfg.target[c], c) !in s.handled
  {
    var group, server := MakePortInfo("239.0.0.1", 9, inetPton), MakePortInfo("10.0.0.1", 9, inetPton);
    UnicastExactly("239.0.0.1", 9, inetPton);
    UnicastExactly("10.0.0.1", 9, inetPton);
    cfg := Config({server}, map[c := group]);
    s := AnsweredByAnother(cfg, c, server);
  }

  /** A connect that was given up or has returned true takes no PING_RSP any more, and no other client's connect is touched. */
  lemma ConnectEnds(cfg: Config, s: State, step: Step, c: Identifier, p: Packet)
    requires Enabled(cfg, s, step) && c in cfg.target
    requires step == GiveUp(c) || (step.ClientReceive? && step.c == c && Accepts(cfg, s, c, step.p))
    ensures var s' := Apply(cfg, s, step);
            && !Accepts(cfg, s', c, p)
            && (step.ClientReceive? ==> c in s'.connected)
            && forall d :: d != c ==> (d in s'.connecting <==> d in s.connecting) && (d in s'.connected <==> d in s.connected)
  {
  }

  /** Clients may ping again or give up while they connect, and applications may send anything that is no PING id. */
  lemma ClientsMayAct(cfg: Config, s: State, c: Identifier, p: Packet)
    requires c in cfg.target
    ensures Enabled(cfg, s, BeginConnect(c))
    ensures c in s.connecting ==> Enabled(cfg, s, GiveUp(c)) && Enabled(cfg, s, SendPing(c))
    ensures p.reqId > 2 || p.reqId == 0 ==> Enabled(cfg, s, AppSend(p)) && Apply(cfg, s, AppSend(p)) == Transmit(s, p)
  {
  }

  /** The network may lose any datagram in flight, and may deliver it once more than it was sent, so often it likes. */
  lemma LossAndCopies(cfg: Config, s: State, p: Packet)
    requires Reachable(cfg, s) && p in s.net
    ensures Enabled(cfg, s, Lose(p)) && Enabled(cfg, s, Copy(p))
    ensures var lost, copied := Apply(cfg, s, Lose(p)), Apply(cfg, s, Copy(p));
            && lost.net[p] == s.net[p] - 1 && lost.lost[p] == s.lost[p] + 1
            && copied.net[p] == s.net[p] + 1 && copied.copied[p] == s.copied[p] + 1
            && forall q :: q != p ==> lost.net[q] == s.net[q] == copied.net[q]
  {
  }

  /** So one PING_REQ may be handled, and answered, more than once. */
  lemma HandledTwice(cfg: Config, c: Identifier, srv: Identifier) returns (s: State)
    requires c in cfg.target && srv in cfg.servers && Same(srv, cfg.target[c])
    ensures Reachable(cfg, s) && s.sent[Ping(cfg, c)] == 1 && s.handled[(srv, c)] == s.answered[(srv, c)] == 2
  {
    var ping := Ping(cfg, c);
    s := PingOnItsWay(cfg, c);
    s := AfterStep(cfg, s, Copy(ping));
    assert s.net == multiset{ping, ping} && s.sent == multiset{ping};
    s := OneMoreAnswer(cfg, s, c, srv);
    s := OneMoreAnswer(cfg, s, c, srv);
  }

  lemma OneMoreAnswer(cfg: Config, s: State, c: Identifier, srv: Identifier) returns (s': State)
    requires Reachable(cfg, s) && c in cfg.target && srv in cfg.servers && Same(srv, cfg.target[c]) && Ping(cfg, c) in s.net
    ensures Reachable(cfg, s')
    ensures s'.net[Ping(cfg, c)] == s.net[Ping(cfg, c)] - 1 && s'.sent[Ping(cfg, c)] == s.sent[Ping(cfg, c)]
    ensures s'.handled[(srv, c)] == s.handled[(srv, c)] + 1 && s'.answered[(srv, c)] == s.answered[(srv, c)] + 1
  {
    s' := AfterStep(cfg, s, ServerReceive(srv, Ping(cfg, c), true));
    assert s'.net == (s.net - multiset{Ping(cfg, c)}) + multiset{Pong(srv, c)};
    assert s'.sent == s.sent + multiset{Pong(srv, c)};
  }

  /** The packets are what the classes send and accept: a client of the target's identifier, a server answering. */
  lemma PacketsOfTheClasses(cfg: Config, s: State, c: Identifier, p: Packet, payload: seq<Byte>, client: GenericClient, result: int)
    requires c in cfg.target && client.identifier == cfg.target[c]
    ensures Accepts(cfg, s, c, p) <==> c in s.connecting && client.IsPong(Msg(Received(RawMessage(p.reqId, payload), p.src)))
    ensures client.OnlyPings([], [Sent(RawMessage(Ping(cfg, c).reqId, []), Ping(cfg, c).dst, result)], 1)
    ensures IsPing(Received(RawMessage(p.reqId, payload), p.src)) ==>
              forall srv :: IsAnswer(Sent(RawMessage(Pong(srv, p.src).reqId, []), Pong(srv, p.src).dst, result), p.src)
  {
  }

  /**
   * Responses add up: those in flight, received and lost are the ones the server managed to send plus the
   * copies the network made of them; and without copies of the requests there are no more than requests.
   */
  lemma ResponsesAddUp(cfg: Config, s: State, srv: Identifier, c: Identifier)
    requires Reachable(cfg, s) && c in cfg.target
    ensures var pong, ping := Pong(srv, c), Ping(cfg, c);
            && s.net[pong] + s.received[pong] + s.lost[pong] == s.answered[(srv, c)] + s.copied[pong]
            && s.answered[(srv, c)] <= s.handled[(srv, c)] <= s.sent[ping] + s.copied[ping]
  {
    ReachableInv(cfg, s);
    assert FlowAt(s, Pong(srv, c)) && FlowAt(s, Ping(cfg, c));
    assert AnswersAt(s, srv, c) && HandledAt(cfg, s, srv, c);
  }
}
