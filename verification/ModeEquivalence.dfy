/** The threaded server and the direct server give an application the same service. */
module ModeEquivalence {
  import opened Messages
  import opened QueueSpec
  import opened Sockets
  import opened ReceiveSpec
  import opened SimpleServer
  import opened DirectMode
  import Q = QueueSystem
  import S = ServerSystem

  /** No offer found the queue full. */
  ghost predicate NoOverflow(s: S.State) {
    forall i :: 0 <= i < |s.offers| ==> s.offers[i].taken
  }

  /** At every moment the two modes take the same messages off the same events, whatever is asked for later. */
  lemma SameIntake(s: S.State)
    requires S.Reachable(s)
    ensures S.OfferedOf(s.offers) == Shown(s.trace, ANY)
    ensures NoOverflow(s) ==> s.sys.accepted == Shown(s.trace, ANY)
    ensures s.replies == PingSenders(BeforeFail(s.trace))
  {
    S.ReachableInv(s);
    NothingAfterFailure(s.trace);
    AnyShowsAllButPings(s.trace);
    if NoOverflow(s) {
      S.AllTaken(s.offers);
    }
  }

  // What one selector shows is what it chooses from what the match-any selector shows.
  lemma ShownOf(trace: seq<Event>, sel: Selector)
    ensures Shown(trace, sel) == Chosen(Shown(trace, ANY), sel)
  {
    ShownAreChosen(trace, sel);
    AnyShowsAllButPings(trace);
  }

  /**
   * On the same socket events, with one selector for all gets and no overflow, what has left the threaded server's
   * queue and what is still in it are, of what the selector matches, what the direct server's service loop delivers;
   * and both answer the same PINGs in the same order. It holds at every moment, during and after a stop too. As
   * long as stop has thrown nothing away, all that has left is what the application was given.
   */
  lemma SameService(s: S.State, sel: Selector)
    requires S.Reachable(s) && Q.OnlyTakenBy(s.sys, sel) && NoOverflow(s)
    ensures Q.Ledger(s.sys)
    ensures var left := Q.Leavers(s.sys.accepted, s.sys.departed);
            && Chosen(left, sel) + Chosen(s.sys.q.items, sel) == Shown(s.trace, sel)
            && (Q.NothingCleared(s.sys) ==> left + Chosen(s.sys.q.items, sel) == Shown(s.trace, sel))
    ensures s.replies == PingSenders(BeforeFail(s.trace))
  {
    SameIntake(s);
    S.QueueReachable(s);
    Q.OneSelectorLosesNothing(s.sys, sel);
    ShownOf(s.trace, sel);
  }

  /**
   * With a single consumer thread and nothing thrown away: what its calls of receive have returned, what one may still
   * have in hand, and what the selector matches of the queue, in this order, is what the direct server delivers.
   */
  lemma SameServiceToOneConsumer(s: S.State, t: Q.Tid, sel: Selector)
    requires S.Reachable(s) && Q.OnlyTakenBy(s.sys, sel) && Q.OneConsumer(s.sys, t) && NoOverflow(s)
    ensures var given, inHand := Q.ReturnedBy(s.sys.returned, t), Q.HandOf(s.sys.threads, t);
            && (forall i :: 0 <= i < |given| ==> given[i] < |s.sys.accepted|)
            && (forall i :: 0 <= i < |inHand| ==> inHand[i] < |s.sys.accepted|)
            && Q.Named(s.sys.accepted, given) + Q.Named(s.sys.accepted, inHand) + Chosen(s.sys.q.items, sel) == Shown(s.trace, sel)
  {
    SameService(s, sel);
    S.QueueReachable(s);
    Q.ConsumerIsGivenAll(s.sys, t);
  }

  /**
   * With overflow the threaded server's messages are those of the direct server with some left out,
   * each of which arrived at a full queue.
   */
  lemma SameServiceButForOverflow(s: S.State, sel: Selector)
    requires S.Reachable(s) && Q.OnlyTakenBy(s.sys, sel)
    ensures Q.Ledger(s.sys)
    ensures Chosen(Q.Leavers(s.sys.accepted, s.sys.departed), sel) + Chosen(s.sys.q.items, sel) == Chosen(S.TakenOf(s.offers), sel)
    ensures Shown(s.trace, sel) == Chosen(S.OfferedOf(s.offers), sel)
    ensures forall i :: 0 <= i < |s.offers| && !s.offers[i].taken ==> s.offers[i].queued == Limit(s.sys.q.maxSize)
  {
    SameIntake(s);
    S.QueueReachable(s);
    Q.OneSelectorLosesNothing(s.sys, sel);
    ShownOf(s.trace, sel);
    S.OnlyFullQueueDrops(s);
  }

  /** The two modes side by side: the direct server is run on the very events a threaded server has dealt with. */
  method RunDirectly(ghost s: S.State, server: GenericSimpleServer, sel: Selector) returns (delivered: seq<Received>)
    requires S.Reachable(s) && Q.OnlyTakenBy(s.sys, sel) && NoOverflow(s)
    requires server.socket.open && server.socket.incoming == s.trace && WellTyped(s.trace, server.socket.unix)
    modifies server.socket`now, server.socket`incoming, server.socket`waited, server.socket`refusals, server.socket`sent
    ensures Q.Ledger(s.sys)
    ensures var left := Q.Leavers(s.sys.accepted, s.sys.departed);
            && delivered == Chosen(left, sel) + Chosen(s.sys.q.items, sel)
            && (Q.NothingCleared(s.sys) ==> delivered == left + Chosen(s.sys.q.items, sel))
    ensures Answered(old(server.socket.sent), server.socket.sent, s.replies)
  {
    SameService(s, sel);
    delivered := ServeAll(server, sel);
  }
}
