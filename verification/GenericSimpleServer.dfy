/** The direct server: the caller's own thread reads the socket and answers PING requests. */
module SimpleServer {
  import opened Wrappers
  import opened Identifiers
  import opened Messages
  import opened Deadlines
  import opened Sockets
  import opened ReceiveSpec

  class GenericSimpleServer {
    const socket: Socket

    constructor (socket: Socket)
      ensures this.socket == socket
    {
      this.socket := socket;
    }

    /** Addresses of another transport are refused without touching the socket. */
    method Send(message: RawMessage, to: Identifier) returns (ret: int)
      modifies socket`now, socket`sent
      ensures to.UnixInfo? == socket.unix ==> socket.sent == old(socket.sent) + [Sent(message, to, ret)]
      ensures to.UnixInfo? != socket.unix ==> ret == -1 && socket.sent == old(socket.sent)
      ensures old(socket.now) <= socket.now <= old(socket.now) + socket.overhead
    {
      if to.UnixInfo? == socket.unix {
        ret := socket.Send(message, to);
      } else {
        ret := -1;
      }
    }

    /** So far every event was skipped, and every PING among them answered. */
    ghost predicate Progress(before: seq<Event>, after: seq<Event>, sentBefore: seq<Sent>, sentAfter: seq<Sent>, sel: Selector) {
      && NothingYet(before, after, sel, true)
      && Answered(sentBefore, sentAfter, PingSenders(Used(before, after)))
    }

    lemma OneMoreAnswer(before: seq<Sent>, mid: seq<Sent>, after: seq<Sent>, senders: seq<Identifier>, to: Identifier)
      requires Answered(before, mid, senders)
      requires exists result :: after == mid + [Sent(RawMessage(IPC_PING_RSP, []), to, result)]
      ensures Answered(before, after, senders + [to])
    {
    }

    // A PING arrived and was answered.
    lemma AfterPing(before: seq<Event>, mid: seq<Event>, sentBefore: seq<Sent>, midSent: seq<Sent>, sentAfter: seq<Sent>, sel: Selector)
      requires Progress(before, mid, sentBefore, midSent, sel) && mid != [] && mid[0].Msg? && IsPing(mid[0].m)
      requires exists result :: sentAfter == midSent + [Sent(RawMessage(IPC_PING_RSP, []), mid[0].m.from, result)]
      ensures Progress(before, mid[1..], sentBefore, sentAfter, sel)
    {
      StepUsed(before, mid, mid[1..]);
      SkipOne(before, mid, mid[1..], sel, true);
      TraceSnoc(Used(before, mid), mid[0]);
      OneMoreAnswer(sentBefore, midSent, sentAfter, PingSenders(Used(before, mid)), mid[0].m.from);
    }

    /** The receive is over with `m`, the first wanted message, and every PING before it was answered. */
    ghost predicate Fulfilled(before: seq<Event>, after: seq<Event>, sentBefore: seq<Sent>, sentAfter: seq<Sent>, sel: Selector, m: Received) {
      && FoundFirst(before, after, sel, true, m)
      && Answered(sentBefore, sentAfter, PingSenders(Used(before, after)))
    }

    /** The receive is over with an error, and every PING before it was answered. */
    ghost predicate Broken(before: seq<Event>, after: seq<Event>, sentBefore: seq<Sent>, sentAfter: seq<Sent>, sel: Selector) {
      && FailedFirst(before, after, sel, true)
      && Answered(sentBefore, sentAfter, PingSenders(Used(before, after)))
    }

    // Any other message arrived.
    lemma AfterMessage(before: seq<Event>, mid: seq<Event>, sentBefore: seq<Sent>, sent: seq<Sent>, sel: Selector)
      requires Progress(before, mid, sentBefore, sent, sel) && mid != [] && mid[0].Msg? && !IsPing(mid[0].m)
      ensures if Matches(mid[0].m, sel) then Fulfilled(before, mid[1..], sentBefore, sent, sel, mid[0].m)
              else Progress(before, mid[1..], sentBefore, sent, sel)
    {
      StepUsed(before, mid, mid[1..]);
      SkipOne(before, mid, mid[1..], sel, true);
      TraceSnoc(Used(before, mid), mid[0]);
    }

    // An error arrived.
    lemma AfterFailure(before: seq<Event>, mid: seq<Event>, sentBefore: seq<Sent>, sent: seq<Sent>, sel: Selector)
      requires Progress(before, mid, sentBefore, sent, sel) && mid != [] && mid[0].Fail?
      ensures Broken(before, mid[1..], sentBefore, sent, sel)
    {
      StepUsed(before, mid, mid[1..]);
      SkipOne(before, mid, mid[1..], sel, true);
      TraceSnoc(Used(before, mid), mid[0]);
    }

    method AnswerPing(to: Identifier)
      requires to.UnixInfo? == socket.unix
      modifies socket`now, socket`sent
      ensures exists result :: socket.sent == old(socket.sent) + [Sent(RawMessage(IPC_PING_RSP, []), to, result)]
      ensures old(socket.now) <= socket.now <= old(socket.now) + socket.overhead
    {
      var _ := Send(RawMessage(IPC_PING_RSP, []), to);
    }

    // What the loop does with a message it was handed: a PING is answered, the rest is filtered.
    method AnswerOrFilter(got: Received, sel: Selector, ghost before: seq<Event>, ghost mid: seq<Event>, ghost sentBefore: seq<Sent>)
      returns (msg: Option<Received>)
      requires Progress(before, mid, sentBefore, socket.sent, sel) && mid != [] && mid[0] == Msg(got)
      requires socket.incoming == mid[1..] && got.from.UnixInfo? == socket.unix
      modifies socket`now, socket`sent
      ensures if msg.None? then Progress(before, socket.incoming, sentBefore, socket.sent, sel)
              else Fulfilled(before, socket.incoming, sentBefore, socket.sent, sel, msg.value)
      ensures old(socket.now) <= socket.now <= old(socket.now) + socket.overhead
    {
      if got.message.reqId == IPC_PING_REQ {
        ghost var midSent := socket.sent;
        AnswerPing(got.from);
        AfterPing(before, mid, sentBefore, midSent, socket.sent, sel);
        return None;
      }
      AfterMessage(before, mid, sentBefore, socket.sent, sel);
      msg := if Matches(got, sel) then Some(got) else None;
    }

    /** One pass of the receive loop: a positive result without a message means carry on. */
    method ReceiveOnce(deadline: Deadline, sel: Selector, ghost before: seq<Event>, ghost sentBefore: seq<Sent>,
                       ghost t0: int, ghost waitedBefore: int)
      returns (ret: int, msg: Option<Received>)
      requires OnTime(deadline, t0, socket.now, socket.waited - waitedBefore, 0)
      requires WellTyped(socket.incoming, socket.unix) && Progress(before, socket.incoming, sentBefore, socket.sent, sel)
      modifies socket`now, socket`incoming, socket`waited, socket`refusals, socket`sent
      ensures WellTyped(socket.incoming, socket.unix)
      ensures 0 < ret && msg.None? ==>
                Progress(before, socket.incoming, sentBefore, socket.sent, sel) && |socket.incoming| < |old(socket.incoming)|
      ensures 0 < ret && msg.Some? ==> Fulfilled(before, socket.incoming, sentBefore, socket.sent, sel, msg.value)
      ensures ret <= 0 ==> msg.None?
      ensures socket.refusals == old(socket.refusals) + if ret <= 0 then 1 else 0
      ensures ret <= 0 ==>
                || Broken(before, socket.incoming, sentBefore, socket.sent, sel)
                || (Progress(before, socket.incoming, sentBefore, socket.sent, sel)
                    && (socket.open ==> Exhausted(deadline, t0, socket.now, socket.incoming)))
      ensures OnTime(deadline, t0, socket.now, socket.waited - waitedBefore, 3 * socket.overhead)
    {
      ghost var mid := socket.incoming;
      ret, msg := socket.ReceiveUntil(deadline, t0, waitedBefore);
      ghost var now := socket.now;
      assert WellTyped(socket.incoming, socket.unix);
      if 0 < ret {
        msg := AnswerOrFilter(msg.value, sel, before, mid, sentBefore);
      } else if socket.incoming != mid {
        AfterFailure(before, mid, sentBefore, socket.sent, sel);
      }
      MoreSlack(deadline, t0, now, socket.now, socket.waited - waitedBefore, 2 * socket.overhead, socket.overhead);
    }

    /** The receive loop under a deadline made when the clock read t0. */
    method ReceiveBy(deadline: Deadline, sel: Selector, ghost t0: int) returns (msg: Option<Received>)
      requires OnTime(deadline, t0, socket.now, 0, 0)
      requires WellTyped(socket.incoming, socket.unix)
      modifies socket`now, socket`incoming, socket`waited, socket`refusals, socket`sent
      ensures WellTyped(socket.incoming, socket.unix)
      ensures msg.Some? ==> Fulfilled(old(socket.incoming), socket.incoming, old(socket.sent), socket.sent, sel, msg.value)
      ensures msg.None? ==>
                || Broken(old(socket.incoming), socket.incoming, old(socket.sent), socket.sent, sel)
                || (Progress(old(socket.incoming), socket.incoming, old(socket.sent), socket.sent, sel)
                    && (socket.open ==> Exhausted(deadline, t0, socket.now, socket.incoming)))
      ensures msg.Some? ==> socket.refusals == old(socket.refusals)
      ensures msg.None? ==>
                || socket.refusals == old(socket.refusals) + 1
                || (socket.refusals == old(socket.refusals)
                    && |socket.incoming| < |old(socket.incoming)| && IsExpired(deadline, socket.now))
      ensures OnTime(deadline, t0, socket.now, socket.waited - old(socket.waited), 4 * socket.overhead)
    {
      ghost var origin, sentBefore, waitedBefore := socket.incoming, socket.sent, socket.waited;
      var again := true;
      while again
        invariant WellTyped(socket.incoming, socket.unix) && Progress(origin, socket.incoming, sentBefore, socket.sent, sel)
        invariant OnTime(deadline, t0, socket.now, socket.waited - waitedBefore, if again then 0 else 4 * socket.overhead)
        invariant !again ==> IsExpired(deadline, socket.now) && |socket.incoming| < |origin|
        invariant socket.refusals == old(socket.refusals)
        decreases again, |socket.incoming|
      {
        var ret;
        ret, msg := ReceiveOnce(deadline, sel, origin, sentBefore, t0, waitedBefore);
        MoreSlack(deadline, t0, socket.now, socket.now, socket.waited - waitedBefore, 3 * socket.overhead, socket.overhead);
        if ret <= 0 || msg.Some? {
          return;
        }
        ghost var now := socket.now;
        var t := socket.ReadClock();
        CheckDeadline(deadline, t0, now, t, socket.waited - waitedBefore, 3 * socket.overhead, socket.overhead);
        again := !IsExpired(deadline, t);
      }
      ExpiredIsExhausted(deadline, t0, socket.now, socket.incoming);
      msg := None;
    }

    method Receive(timeoutMs: Int32, sel: Selector) returns (msg: Option<Received>)
      requires WellTyped(socket.incoming, socket.unix)
      modifies socket`now, socket`incoming, socket`waited, socket`refusals, socket`sent
      ensures WellTyped(socket.incoming, socket.unix) && Suffix(old(socket.incoming), socket.incoming)
      ensures Answered(old(socket.sent), socket.sent, PingSenders(Used(old(socket.incoming), socket.incoming)))
      ensures msg.Some? ==> FoundFirst(old(socket.incoming), socket.incoming, sel, true, msg.value)
      ensures msg.Some? ==> msg.value.message.reqId != IPC_PING_REQ && Matches(msg.value, sel)
      ensures msg.None? ==>
                || FailedFirst(old(socket.incoming), socket.incoming, sel, true)
                || (NothingYet(old(socket.incoming), socket.incoming, sel, true)
                    && (socket.open ==> TimeIsUp(timeoutMs, old(socket.now), socket.overhead, socket.now, socket.incoming)))
      ensures msg.Some? ==> socket.refusals == old(socket.refusals)
      ensures msg.None? ==>
                || socket.refusals == old(socket.refusals) + 1
                || (socket.refusals == old(socket.refusals) && socket.incoming != old(socket.incoming)
                    && timeoutMs != INFINITE_TIMEOUT && old(socket.now) + timeoutMs * MS < socket.now)
      ensures timeoutMs != INFINITE_TIMEOUT ==>
                && socket.waited - old(socket.waited) <= AtLeastZero(timeoutMs) * MS
                && socket.now <= old(socket.now) + AtLeastZero(timeoutMs) * MS + 5 * socket.overhead
    {
      ghost var start, waitedBefore := socket.now, socket.waited;
      var t0 := socket.ReadClock();
      JustMade(timeoutMs, t0);
      msg := ReceiveBy(MakeDeadline(timeoutMs, t0), sel, t0);
      TimeBounds(timeoutMs, start, t0, socket.now, socket.waited - waitedBefore, 4 * socket.overhead, socket.overhead);
      if IsExpired(MakeDeadline(timeoutMs, t0), socket.now) {
        ExpiredIsLate(timeoutMs, start, t0, socket.now);
      }
      if Exhausted(MakeDeadline(timeoutMs, t0), t0, socket.now, socket.incoming) {
        ExhaustedSince(timeoutMs, start, socket.overhead, t0, socket.now, socket.incoming);
      }
    }
  }
}
