/** The client: a filtered receive under a deadline, and the retrying PING handshake. */
module Client {
  import opened Wrappers
  import opened Identifiers
  import opened Messages
  import opened Deadlines
  import opened Sockets
  import opened ReceiveSpec

  const PING_TIMEOUT: Int32 := 100

  datatype ConnectResult = Connected | TimedOut | StillTrying

  class GenericClient {
    const socket: Socket
    const identifier: Identifier

    constructor (socket: Socket, identifier: Identifier)
      ensures this.socket == socket && this.identifier == identifier
    {
      this.socket, this.identifier := socket, identifier;
    }

    function Filter(sigsel: seq<Word32>): Selector {
      Selector(sigsel, Some(identifier))
    }

    method Send(message: RawMessage) returns (ret: int)
      modifies socket`now, socket`sent
      ensures old(socket.now) < socket.now <= old(socket.now) + socket.overhead
      ensures socket.sent == old(socket.sent) + [Sent(message, identifier, ret)]
      ensures !socket.open ==> ret < 0
    {
      ret := socket.Send(message, identifier);
    }

    /** One pass of the receive loop: a positive result without a message means carry on. */
    method ReceiveOnce(deadline: Deadline, sel: Selector, ghost before: seq<Event>, ghost t0: int,
                       ghost waitedBefore: int)
      returns (ret: int, msg: Option<Received>)
      requires OnTime(deadline, t0, socket.now, socket.waited - waitedBefore, 0)
      requires NothingYet(before, socket.incoming, sel, false)
      modifies socket`now, socket`incoming, socket`waited, socket`refusals
      ensures 0 < ret && msg.None? ==>
                NothingYet(before, socket.incoming, sel, false) && |socket.incoming| < |old(socket.incoming)|
      ensures 0 < ret && msg.Some? ==> FoundFirst(before, socket.incoming, sel, false, msg.value)
      ensures ret <= 0 ==> msg.None?
      ensures socket.refusals == old(socket.refusals) + if ret <= 0 then 1 else 0
      ensures ret <= 0 ==>
                || FailedFirst(before, socket.incoming, sel, false)
                || (NothingYet(before, socket.incoming, sel, false)
                    && (socket.open ==> Exhausted(deadline, t0, socket.now, socket.incoming)))
      ensures old(socket.waited) <= socket.waited && old(socket.now) <= socket.now
      ensures OnTime(deadline, t0, socket.now, socket.waited - waitedBefore, 2 * socket.overhead)
    {
      ghost var mid := socket.incoming;
      ret, msg := socket.ReceiveUntil(deadline, t0, waitedBefore);
      if socket.incoming != mid {
        SkipOne(before, mid, mid[1..], sel, false);
      }
      if 0 < ret && !Matches(msg.value, sel) {
        msg := None;
      }
    }

    /** The receive loop under a deadline made when the clock read t0. */
    method ReceiveBy(deadline: Deadline, sel: Selector, ghost t0: int) returns (got: Option<Received>)
      requires OnTime(deadline, t0, socket.now, 0, 0)
      modifies socket`now, socket`incoming, socket`waited, socket`refusals
      ensures got.Some? ==> FoundFirst(old(socket.incoming), socket.incoming, sel, false, got.value)
      ensures got.None? ==>
                || FailedFirst(old(socket.incoming), socket.incoming, sel, false)
                || (NothingYet(old(socket.incoming), socket.incoming, sel, false)
                    && (socket.open ==> Exhausted(deadline, t0, socket.now, socket.incoming)))
      ensures got.Some? ==> socket.refusals == old(socket.refusals)
      ensures got.None? ==>
                || socket.refusals == old(socket.refusals) + 1
                || (socket.refusals == old(socket.refusals)
                    && |socket.incoming| < |old(socket.incoming)| && IsExpired(deadline, socket.now))
      ensures OnTime(deadline, t0, socket.now, socket.waited - old(socket.waited), 3 * socket.overhead)
    {
      ghost var origin, waitedBefore := socket.incoming, socket.waited;
      var again := true;
      got := None;
      while again
        invariant NothingYet(origin, socket.incoming, sel, false)
        invariant OnTime(deadline, t0, socket.now, socket.waited - waitedBefore, if again then 0 else 3 * socket.overhead)
        invariant !again ==> IsExpired(deadline, socket.now) && |socket.incoming| < |origin|
        invariant socket.refusals == old(socket.refusals)
        decreases again, |socket.incoming|
      {
        var ret;
        ret, got := ReceiveOnce(deadline, sel, origin, t0, waitedBefore);
        MoreSlack(deadline, t0, socket.now, socket.now, socket.waited - waitedBefore, 2 * socket.overhead, socket.overhead);
        if ret <= 0 || got.Some? {
          return;
        }
        ghost var now := socket.now;
        var t := socket.ReadClock();
        CheckDeadline(deadline, t0, now, t, socket.waited - waitedBefore, 2 * socket.overhead, socket.overhead);
        again := !IsExpired(deadline, t);
      }
      ExpiredIsExhausted(deadline, t0, socket.now, socket.incoming);
      got := None;
    }

    method Receive(timeoutMs: Int32, sigsel: seq<Word32>) returns (msg: Option<RawMessage>, ghost from: Identifier)
      modifies socket`now, socket`incoming, socket`waited, socket`refusals
      ensures Suffix(old(socket.incoming), socket.incoming)
      ensures msg.Some? ==>
                FoundFirst(old(socket.incoming), socket.incoming, Filter(sigsel), false, Received(msg.value, from))
      ensures msg.Some? ==> Same(from, identifier) && (sigsel == [] || msg.value.reqId in sigsel)
      ensures msg.None? ==>
                || FailedFirst(old(socket.incoming), socket.incoming, Filter(sigsel), false)
                || (NothingYet(old(socket.incoming), socket.incoming, Filter(sigsel), false)
                    && (socket.open ==> TimeIsUp(timeoutMs, old(socket.now), socket.overhead, socket.now, socket.incoming)))
      ensures msg.Some? ==> socket.refusals == old(socket.refusals)
      ensures msg.None? ==>
                || socket.refusals == old(socket.refusals) + 1
                || (socket.refusals == old(socket.refusals) && socket.incoming != old(socket.incoming)
                    && timeoutMs != INFINITE_TIMEOUT && old(socket.now) + timeoutMs * MS < socket.now)
      ensures timeoutMs != INFINITE_TIMEOUT ==>
                && socket.waited - old(socket.waited) <= AtLeastZero(timeoutMs) * MS
                && socket.now <= old(socket.now) + AtLeastZero(timeoutMs) * MS + 4 * socket.overhead
      ensures old(socket.waited) <= socket.waited && old(socket.now) <= socket.now
    {
      ghost var start, waitedBefore := socket.now, socket.waited;
      var t0 := socket.ReadClock();
      JustMade(timeoutMs, t0);
      var got := ReceiveBy(MakeDeadline(timeoutMs, t0), Filter(sigsel), t0);
      TimeBounds(timeoutMs, start, t0, socket.now, socket.waited - waitedBefore, 3 * socket.overhead, socket.overhead);
      if IsExpired(MakeDeadline(timeoutMs, t0), socket.now) {
        ExpiredIsLate(timeoutMs, start, t0, socket.now);
      }
      if Exhausted(MakeDeadline(timeoutMs, t0), t0, socket.now, socket.incoming) {
        ExhaustedSince(timeoutMs, start, socket.overhead, t0, socket.now, socket.incoming);
      }
      if got.Some? {
        msg, from := Some(got.value.message), got.value.from;
      } else {
        msg, from := None, identifier;
      }
    }

    method SendReceive(message: RawMessage, timeoutMs: Int32, sigsel: seq<Word32>)
      returns (msg: Option<RawMessage>, ghost from: Identifier)
      modifies socket`now, socket`incoming, socket`waited, socket`refusals, socket`sent
      ensures |socket.sent| == |old(socket.sent)| + 1 && socket.sent[..|old(socket.sent)|] == old(socket.sent)
      ensures Last(socket.sent).message == message && Last(socket.sent).to == identifier
      ensures Last(socket.sent).result < 0 ==> msg.None? && socket.incoming == old(socket.incoming)
      ensures 0 <= Last(socket.sent).result && msg.None? ==>
                || FailedFirst(old(socket.incoming), socket.incoming, Filter(sigsel), false)
                || (NothingYet(old(socket.incoming), socket.incoming, Filter(sigsel), false)
                    && (socket.open ==> TimeIsUp(timeoutMs, old(socket.now), 2 * socket.overhead, socket.now, socket.incoming)))
      ensures msg.Some? ==> socket.refusals == old(socket.refusals)
      ensures 0 <= Last(socket.sent).result && msg.None? ==>
                || socket.refusals == old(socket.refusals) + 1
                || (socket.refusals == old(socket.refusals) && socket.incoming != old(socket.incoming)
                    && timeoutMs != INFINITE_TIMEOUT && old(socket.now) + timeoutMs * MS < socket.now)
      ensures timeoutMs != INFINITE_TIMEOUT ==>
                && socket.waited - old(socket.waited) <= AtLeastZero(timeoutMs) * MS
                && socket.now <= old(socket.now) + AtLeastZero(timeoutMs) * MS + 5 * socket.overhead
      ensures msg.Some? ==>
                FoundFirst(old(socket.incoming), socket.incoming, Filter(sigsel), false, Received(msg.value, from))
    {
      ghost var start := socket.now;
      var ret := Send(message);
      if ret < 0 {
        return None, identifier;
      }
      ghost var sentAt := socket.now;
      msg, from := Receive(timeoutMs, sigsel);
      if TimeIsUp(timeoutMs, sentAt, socket.overhead, socket.now, socket.incoming) {
        TimeIsUpSince(timeoutMs, start, socket.overhead, sentAt, socket.overhead, socket.now, socket.incoming);
      }
    }

    /** The answer connect waits for. */
    predicate IsPong(e: Event) {
      e.Msg? && Matches(e.m, Filter([IPC_PING_RSP]))
    }

    predicate NoPong(events: seq<Event>) {
      forall i :: 0 <= i < |events| ==> !IsPong(events[i])
    }

    predicate EndsWithFirstPong(events: seq<Event>) {
      events != [] && IsPong(Last(events)) && NoPong(Front(events))
    }

    ghost predicate OnlyPings(before: seq<Sent>, after: seq<Sent>, n: nat) {
      && |after| == |before| + n
      && after[..|before|] == before
      && forall i :: |before| <= i < |after| ==> after[i].message == RawMessage(IPC_PING_REQ, []) && after[i].to == identifier
    }

    lemma OnePingMore(before: seq<Sent>, mid: seq<Sent>, n: nat, result: int)
      requires OnlyPings(before, mid, n)
      ensures OnlyPings(before, mid + [Sent(RawMessage(IPC_PING_REQ, []), identifier, result)], n + 1)
    {
    }

    // What a receive for PING_RSP consumed, in terms of answers.
    lemma PongsUsed(before: seq<Event>, after: seq<Event>)
      requires Suffix(before, after)
      ensures NothingYet(before, after, Filter([IPC_PING_RSP]), false) || FailedFirst(before, after, Filter([IPC_PING_RSP]), false) ==>
                NoPong(Used(before, after))
      ensures forall m :: FoundFirst(before, after, Filter([IPC_PING_RSP]), false, m) ==> EndsWithFirstPong(Used(before, after))
    {
      var used := Used(before, after);
      var sel := Filter([IPC_PING_RSP]);
      if used != [] && AllSkipped(Front(used), sel, false) {
        forall i | 0 <= i < |used| - 1
          ensures !IsPong(used[i])
        {
          assert Skipped(Front(used)[i], sel, false);
        }
      }
    }

    lemma PongsAdd(a: seq<Event>, b: seq<Event>)
      requires NoPong(a)
      ensures NoPong(b) ==> NoPong(a + b)
      ensures EndsWithFirstPong(b) ==> EndsWithFirstPong(a + b)
    {
      if b != [] {
        assert Front(a + b) == a + Front(b);
      }
    }

    /** So far `n` PING requests went out, and no answer came. */
    ghost predicate Unanswered(before: seq<Event>, after: seq<Event>, sentBefore: seq<Sent>, sentAfter: seq<Sent>, n: nat) {
      && OnlyPings(sentBefore, sentAfter, n)
      && Suffix(before, after) && NoPong(Used(before, after))
    }

    /** `n` PING requests went out, and the last event consumed is the first answer. */
    ghost predicate Greeted(before: seq<Event>, after: seq<Event>, sentBefore: seq<Sent>, sentAfter: seq<Sent>, n: nat) {
      && OnlyPings(sentBefore, sentAfter, n)
      && Suffix(before, after) && EndsWithFirstPong(Used(before, after))
    }

    lemma OneMoreTry(before: seq<Event>, mid: seq<Event>, after: seq<Event>, sentBefore: seq<Sent>, midSent: seq<Sent>,
                     n: nat, result: int, connected: bool)
      requires Unanswered(before, mid, sentBefore, midSent, n) && Suffix(mid, after)
      requires if connected then EndsWithFirstPong(Used(mid, after)) else NoPong(Used(mid, after))
      ensures var sent := midSent + [Sent(RawMessage(IPC_PING_REQ, []), identifier, result)];
              if connected then Greeted(before, after, sentBefore, sent, n + 1)
              else Unanswered(before, after, sentBefore, sent, n + 1)
    {
      OnePingMore(sentBefore, midSent, n, result);
      UsedSplits(before, mid, after);
      PongsAdd(Used(before, mid), Used(mid, after));
    }

    lemma GreetedBySender(before: seq<Event>, after: seq<Event>, sentBefore: seq<Sent>, sentAfter: seq<Sent>, n: nat)
      requires Greeted(before, after, sentBefore, sentAfter, n)
      ensures var answer := Last(Used(before, after)).m;
              answer.message.reqId == IPC_PING_RSP && Same(answer.from, identifier)
    {
    }

    // The errors among what a receive consumed when it ended without a message.
    lemma FailuresUsed(before: seq<Event>, after: seq<Event>, sel: Selector)
      ensures NothingYet(before, after, sel, false) ==> Failures(Used(before, after)) == 0
      ensures FailedFirst(before, after, sel, false) ==> Failures(Used(before, after)) == 1
    {
      if NothingYet(before, after, sel, false) {
        NoFailureSkipped(Used(before, after), sel, false);
      }
      if FailedFirst(before, after, sel, false) {
        NoFailureSkipped(Front(Used(before, after)), sel, false);
      }
    }

    // One repetition: a PING request, and a short receive for its answer when it could be sent.
    method Attempt() returns (connected: bool)
      modifies socket`now, socket`incoming, socket`waited, socket`refusals, socket`sent
      ensures |socket.sent| == |old(socket.sent)| + 1
      ensures socket.sent == old(socket.sent) + [Sent(RawMessage(IPC_PING_REQ, []), identifier, Last(socket.sent).result)]
      ensures Suffix(old(socket.incoming), socket.incoming)
      ensures var used := Used(old(socket.incoming), socket.incoming);
              if connected then EndsWithFirstPong(used) else NoPong(used)
      ensures connected ==> 0 <= Last(socket.sent).result
      ensures Last(socket.sent).result < 0 ==>
                socket.incoming == old(socket.incoming) && socket.refusals == old(socket.refusals)
      ensures 0 <= Last(socket.sent).result ==>
                socket.refusals == old(socket.refusals) + 1 || |socket.incoming| < |old(socket.incoming)|
      ensures 0 <= Last(socket.sent).result && !connected ==>
                || FailedFirst(old(socket.incoming), socket.incoming, Filter([IPC_PING_RSP]), false)
                || (Failures(Used(old(socket.incoming), socket.incoming)) == 0
                    && old(socket.now) + 99_000_000 < socket.now)
      ensures old(socket.now) < socket.now <= old(socket.now) + 100_000_000 + 5 * socket.overhead
      ensures old(socket.refusals) <= socket.refusals
    {
      connected := false;
      var len := Send(RawMessage(IPC_PING_REQ, []));
      if 0 <= len {
        var rsp, _ := Receive(PING_TIMEOUT, [IPC_PING_RSP]);
        PongsUsed(old(socket.incoming), socket.incoming);
        FailuresUsed(old(socket.incoming), socket.incoming, Filter([IPC_PING_RSP]));
        connected := rsp.Some?;
      }
    }

    /**
     * How the handshake has listened in its repetitions so far: for every PING request that could be sent the socket was
     * asked in vain or gave an event, and unless an error cut it short it was listened to for 99 ms at least.
     */
    ghost predicate Listened(start: int, now: int, connected: bool, rounds: nat, successes: int, used: seq<Event>, refusals: int) {
      && successes <= refusals + |used|
      && (!connected ==> start + (successes - Failures(used)) * 99_000_000 + rounds <= now)
    }

    lemma ListenedMore(start: int, before: int, now: int, rounds: nat, successes: int, used: seq<Event>, more: seq<Event>,
                       refusals: int, refused: nat, succeeded: bool, connected: bool)
      requires Listened(start, before, false, rounds, successes, used, refusals) && before < now
      requires if succeeded then 0 < refused || more != [] else more == [] && !connected
      requires succeeded && !connected ==>
                 Failures(more) == 1 || (Failures(more) == 0 && before + 99_000_000 < now)
      ensures Listened(start, now, connected, rounds + 1, successes + if succeeded then 1 else 0, used + more, refusals + refused)
    {
      FailuresConcat(used, more);
    }

    /** What is known of the handshake after some repetitions, the last of which may have brought the answer. */
    ghost predicate Tried(origin: seq<Event>, incoming: seq<Event>, sentBefore: seq<Sent>, sent: seq<Sent>,
                          start: int, now: int, refusals: int, n: nat, connected: bool) {
      && (if connected then Greeted(origin, incoming, sentBefore, sent, n) else Unanswered(origin, incoming, sentBefore, sent, n))
      && Listened(start, now, connected, n, Successes(sent) - Successes(sentBefore), Used(origin, incoming), refusals)
    }

    lemma TriedLater(origin: seq<Event>, incoming: seq<Event>, sentBefore: seq<Sent>, sent: seq<Sent>,
                     start: int, now: int, later: int, refusals: int, n: nat, connected: bool)
      requires Tried(origin, incoming, sentBefore, sent, start, now, refusals, n, connected) && now <= later
      ensures Tried(origin, incoming, sentBefore, sent, start, later, refusals, n, connected)
    {
    }

    // One repetition more, in terms of the whole handshake.
    method TryAgain(ghost origin: seq<Event>, ghost sentBefore: seq<Sent>, ghost start: int, ghost refusals: int, ghost n: nat)
      returns (connected: bool)
      requires Tried(origin, socket.incoming, sentBefore, socket.sent, start, socket.now, socket.refusals - refusals, n, false)
      modifies socket`now, socket`incoming, socket`waited, socket`refusals, socket`sent
      ensures Tried(origin, socket.incoming, sentBefore, socket.sent, start, socket.now, socket.refusals - refusals, n + 1, connected)
      ensures connected ==> 0 <= Last(socket.sent).result
      ensures old(socket.now) < socket.now <= old(socket.now) + 100_000_000 + 5 * socket.overhead
      ensures socket.sent != []
    {
      ghost var mid, midSent, before, refused := socket.incoming, socket.sent, socket.now, socket.refusals;
      connected := Attempt();
      ghost var s := Last(socket.sent);
      OneMoreTry(origin, mid, socket.incoming, sentBefore, midSent, n, s.result, connected);
      FailuresUsed(mid, socket.incoming, Filter([IPC_PING_RSP]));
      SuccessesSnoc(midSent, s);
      UsedSplits(origin, mid, socket.incoming);
      ListenedMore(start, before, socket.now, n, Successes(midSent) - Successes(sentBefore), Used(origin, mid),
                   Used(mid, socket.incoming), refused - refusals, socket.refusals - refused, 0 <= s.result, connected);
    }

    /**
     * The handshake. Against a silent peer an infinite timeout never returns, so the run is watched for
     * `watch` repetitions after the first; a call still going on then is StillTrying. With a finite timeout
     * the clock's distance to the deadline bounds the repetitions, so enough watching sees it return.
     */
    method Connect(timeoutMs: Int32, watch: nat) returns (result: ConnectResult, ghost rounds: nat)
      modifies socket`now, socket`incoming, socket`waited, socket`refusals, socket`sent
      ensures 1 <= rounds <= watch + 1 && OnlyPings(old(socket.sent), socket.sent, rounds)
      ensures Suffix(old(socket.incoming), socket.incoming)
      ensures var used := Used(old(socket.incoming), socket.incoming);
              if result == Connected then EndsWithFirstPong(used) else NoPong(used)
      ensures result == Connected ==>
                var answer := Last(Used(old(socket.incoming), socket.incoming)).m;
                answer.message.reqId == IPC_PING_RSP && Same(answer.from, identifier)
      ensures result == Connected ==> 0 <= Last(socket.sent).result
      ensures result == TimedOut ==>
                timeoutMs != INFINITE_TIMEOUT && old(socket.now) + timeoutMs * MS < socket.now
      ensures timeoutMs != INFINITE_TIMEOUT ==>
                socket.now <= old(socket.now) + AtLeastZero(timeoutMs) * MS + 100_000_000 + 7 * socket.overhead
      ensures timeoutMs != INFINITE_TIMEOUT && AtLeastZero(timeoutMs) * MS <= watch ==> result != StillTrying
      ensures result == StillTrying ==> rounds == watch + 1
      ensures var used := Used(old(socket.incoming), socket.incoming);
              var successes := Successes(socket.sent) - Successes(old(socket.sent));
              && successes <= socket.refusals - old(socket.refusals) + |used|
              && (result != Connected ==>
                    old(socket.now) + (successes - Failures(used)) * 99_000_000 < socket.now)
    {
      ghost var origin, sentBefore, start, refusals := socket.incoming, socket.sent, socket.now, socket.refusals;
      ghost var attempt := 100_000_000 + 5 * socket.overhead;
      var t0 := socket.ReadClock();
      JustMade(timeoutMs, t0);
      var deadline := MakeDeadline(timeoutMs, t0);
      var round := 0;
      var again := true;
      while again && round <= watch
        invariant round <= watch + 1 && (!again ==> 0 < round)
        invariant Tried(origin, socket.incoming, sentBefore, socket.sent, start, socket.now, socket.refusals - refusals, round, false)
        invariant t0 + round <= socket.now
        invariant OnTime(deadline, t0, socket.now, 0, if again then 0 else attempt + socket.overhead)
        invariant 0 < round ==> (again <==> !IsExpired(deadline, socket.now))
        decreases again, watch + 1 - round
      {
        ghost var before := socket.now;
        var connected := TryAgain(origin, sentBefore, start, refusals, round);
        MoreSlack(deadline, t0, before, socket.now, 0, 0, attempt);
        TimeBounds(timeoutMs, start, t0, socket.now, 0, attempt, socket.overhead);
        round := round + 1;
        if connected {
          GreetedBySender(origin, socket.incoming, sentBefore, socket.sent, round);
          return Connected, round;
        }
        ghost var now := socket.now;
        var t := socket.ReadClock();
        TriedLater(origin, socket.incoming, sentBefore, socket.sent, start, now, t, socket.refusals - refusals, round, false);
        CheckDeadline(deadline, t0, now, t, 0, attempt, socket.overhead);
        again := !IsExpired(deadline, t);
      }
      TimeBounds(timeoutMs, start, t0, socket.now, 0, attempt + socket.overhead, socket.overhead);
      if !again {
        ExpiredIsLate(timeoutMs, start, t0, socket.now);
      }
      TicksExpire(timeoutMs, t0, round, socket.now);
      return if again then StillTrying else TimedOut, round;
    }
  }

  lemma UsedSplits(before: seq<Event>, mid: seq<Event>, after: seq<Event>)
    requires Suffix(before, mid) && Suffix(mid, after)
    ensures Suffix(before, after) && Used(before, after) == Used(before, mid) + Used(mid, after)
  {
  }
}
