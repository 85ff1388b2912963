/** The threaded server's worker as sequential code: the loop that feeds the queue from the socket. */
module Server {
  import opened Wrappers
  import opened Messages
  import opened QueueSpec
  import opened Queue
  import opened Deadlines
  import opened Sockets
  import opened ReceiveSpec
  import opened SimpleServer
  import opened DirectMode

  /** The queue after a run of adds. */
  function Fed(q: QState, ms: seq<Received>): QState {
    if ms == [] then q else AddTo(Fed(q, ms[..|ms| - 1]), ms[|ms| - 1])
  }

  lemma FedSnoc(q: QState, ms: seq<Received>, m: Received)
    ensures Fed(q, ms + [m]) == AddTo(Fed(q, ms), m)
  {
    assert (ms + [m])[..|ms|] == ms;
  }

  /** A full queue keeps what came first: as many messages as there was room for, in order. */
  lemma {:induction false} FirstComeFirstKept(q: QState, ms: seq<Received>)
    requires Bounded(q)
    ensures Fed(q, ms).items == q.items + ms[..Min(|ms|, Limit(q.maxSize) - |q.items|)]
    ensures 0 <= q.maxSize ==> |q.items| <= q.maxSize && Fed(q, ms).items == q.items + ms[..Min(|ms|, q.maxSize - |q.items|)]
    ensures Fed(q, ms).maxSize == q.maxSize
  {
    if ms == [] {
      assert q.items + [] == q.items;
    } else {
      var front := ms[..|ms| - 1];
      FirstComeFirstKept(q, front);
      var room := Limit(q.maxSize) - |q.items|;
      if |front| < room {
        assert q.items + front + [ms[|ms| - 1]] == q.items + ms;
        assert front[..|front|] == front && ms[..|ms|] == ms;
      } else {
        assert front[..room] == ms[..room];
      }
    }
  }

  class GenericServer {
    const base: GenericSimpleServer
    const queue: LinxQueue

    constructor (base: GenericSimpleServer, queue: LinxQueue)
      ensures this.base == base && this.queue == queue
    {
      this.base, this.queue := base, queue;
    }

    /** One pass of the worker's loop: `done` when the socket reported an error or its end. */
    method TaskPass() returns (done: bool)
      requires WellTyped(base.socket.incoming, base.socket.unix)
      modifies base.socket`now, base.socket`incoming, base.socket`waited, base.socket`refusals, base.socket`sent, queue`queue, queue.efd`count
      ensures WellTyped(base.socket.incoming, base.socket.unix)
      ensures base.socket.open && old(base.socket.incoming) == [] ==> done
      ensures done ==> queue.State() == old(queue.State()) && base.socket.sent == old(base.socket.sent)
      ensures done && base.socket.open && old(base.socket.incoming) != [] ==> old(base.socket.incoming)[0].Fail?
      ensures !done ==>
                && old(base.socket.incoming) != [] && old(base.socket.incoming)[0].Msg?
                && base.socket.incoming == old(base.socket.incoming)[1..]
                && var m := old(base.socket.incoming)[0].m;
                   if IsPing(m) then
                     && queue.State() == old(queue.State())
                     && Answered(old(base.socket.sent), base.socket.sent, [m.from])
                   else
                     && queue.State() == AddTo(old(queue.State()), m)
                     && base.socket.sent == old(base.socket.sent)
    {
      var ret, msg := base.socket.Receive(INFINITE_TIMEOUT);
      if ret == 0 {
        return true;
      }
      if ret < 0 {
        return true;
      }
      if msg.value.message.reqId == IPC_PING_REQ {
        var _ := base.Send(RawMessage(IPC_PING_RSP, []), msg.value.from);
        return false;
      }
      var result, container := queue.Add(msg.value);
      if result != 0 {
        var discardedFrom := container.value.from; // still the worker's, so it can be named in the log
      }
      return false;
    }

    // The books after one more event has been dealt with.
    lemma OneMoreDone(q: QState, q': QState, q'': QState, a: seq<Sent>, b: seq<Sent>, c: seq<Sent>, events: seq<Event>, e: Event)
      requires e.Msg? && q' == Fed(q, NonPing(events)) && Answered(a, b, PingSenders(events))
      requires if IsPing(e.m) then q'' == q' && Answered(b, c, [e.m.from]) else q'' == AddTo(q', e.m) && c == b
      ensures q'' == Fed(q, NonPing(events + [e])) && Answered(a, c, PingSenders(events + [e]))
    {
      TraceSnoc(events, e);
      if IsPing(e.m) {
        AnsweredInTurn(a, b, c, PingSenders(events), [e.m.from]);
      } else {
        FedSnoc(q, NonPing(events), e.m);
      }
    }

    lemma OneLessToCome(origin: seq<Event>, events: seq<Event>, rest: seq<Event>)
      requires BeforeFail(origin) == events + BeforeFail(rest) && rest != [] && rest[0].Msg?
      ensures BeforeFail(origin) == (events + [rest[0]]) + BeforeFail(rest[1..])
    {
    }

    /** The worker's whole loop on its own: answer the PINGs, queue the rest while there is room, end at the first error. */
    method Task()
      requires WellTyped(base.socket.incoming, base.socket.unix) && base.socket.open
      modifies base.socket`now, base.socket`incoming, base.socket`waited, base.socket`refusals, base.socket`sent, queue`queue, queue.efd`count
      ensures var events := BeforeFail(old(base.socket.incoming));
              && queue.State() == Fed(old(queue.State()), NonPing(events))
              && Answered(old(base.socket.sent), base.socket.sent, PingSenders(events))
    {
      ghost var events: seq<Event>, rest := [], base.socket.incoming;
      var done := false;
      while !done
        invariant WellTyped(base.socket.incoming, base.socket.unix)
        invariant BeforeFail(old(base.socket.incoming)) == events + BeforeFail(rest)
        invariant if done then BeforeFail(rest) == [] else rest == base.socket.incoming
        invariant queue.State() == Fed(old(queue.State()), NonPing(events))
        invariant Answered(old(base.socket.sent), base.socket.sent, PingSenders(events))
        decreases !done, |base.socket.incoming|
      {
        ghost var q, sent := queue.State(), base.socket.sent;
        done := TaskPass();
        if !done {
          OneMoreDone(old(queue.State()), q, queue.State(), old(base.socket.sent), sent, base.socket.sent, events, rest[0]);
          OneLessToCome(old(base.socket.incoming), events, rest);
          events, rest := events + [rest[0]], rest[1..];
        }
      }
      assert events + [] == events;
    }

    /** Reads the queue whether or not a worker was ever started; the socket is not touched. */
    method Receive(timeoutMs: Int32, sel: Selector, sleeps: seq<Sleep>)
      returns (returned: bool, msg: Option<Received>, woken: nat)
      modifies queue`queue, queue`stopped, queue.efd`count
      ensures Waited(old(queue.State()), sleeps, woken, sel, queue.State(), msg)
      ensures timeoutMs == IMMEDIATE_TIMEOUT || old(queue.stopped) ==> returned && woken == 0
      ensures msg.Some? ==> returned
      ensures !returned ==> !queue.stopped && Found(queue.State(), sel).None?
      ensures returned && msg.None? ==>
                timeoutMs == IMMEDIATE_TIMEOUT || queue.stopped
                || (timeoutMs != INFINITE_TIMEOUT && 0 < woken && sleeps[woken - 1].timedOut)
      ensures timeoutMs != INFINITE_TIMEOUT ==>
                NoTimeout(sleeps, if !returned then |sleeps| else if woken == 0 then 0 else woken - 1)
    {
      returned, msg, woken := queue.Get(timeoutMs, sel, sleeps);
    }
  }
}
