/** Repeated calls of the direct server's receive, as an application's service loop makes them. */
module DirectMode {
  import opened Wrappers
  import opened Identifiers
  import opened Messages
  import opened Sockets
  import opened ReceiveSpec
  import opened SimpleServer

  /** The events before the first error or closed socket. */
  function BeforeFail(trace: seq<Event>): seq<Event> {
    if trace == [] || trace[0].Fail? then [] else [trace[0]] + BeforeFail(trace[1..])
  }

  /** Every message a direct server hands over before the first error, given one selector throughout. */
  function Shown(trace: seq<Event>, sel: Selector): seq<Received> {
    if trace == [] || trace[0].Fail? then []
    else if Wanted(trace[0].m, sel, true) then [trace[0].m] + Shown(trace[1..], sel)
    else Shown(trace[1..], sel)
  }

  lemma ShownCons(e: Event, rest: seq<Event>, sel: Selector)
    ensures Skipped(e, sel, true) ==> Shown([e] + rest, sel) == Shown(rest, sel)
    ensures e.Msg? && Wanted(e.m, sel, true) ==> Shown([e] + rest, sel) == [e.m] + Shown(rest, sel)
    ensures e.Fail? ==> Shown([e] + rest, sel) == []
    ensures BeforeFail([e] + rest) == if e.Fail? then [] else [e] + BeforeFail(rest)
  {
    assert ([e] + rest)[1..] == rest;
  }

  lemma {:induction false} SkippedShowNothing(skipped: seq<Event>, rest: seq<Event>, sel: Selector)
    requires AllSkipped(skipped, sel, true)
    ensures Shown(skipped + rest, sel) == Shown(rest, sel)
    ensures BeforeFail(skipped + rest) == skipped + BeforeFail(rest)
  {
    if skipped == [] {
      assert skipped + rest == rest;
    } else {
      var e, others := skipped[0], skipped[1..];
      assert skipped == [e] + others;
      assert skipped + rest == [e] + (others + rest);
      assert skipped + BeforeFail(rest) == [e] + (others + BeforeFail(rest));
      SkippedShowNothing(others, rest, sel);
      ShownCons(e, others + rest, sel);
    }
  }

  // A stretch of skipped events, then the event that ends a receive.
  lemma SkippedThenEvent(front: seq<Event>, e: Event, after: seq<Event>, sel: Selector)
    requires AllSkipped(front, sel, true) && !Skipped(e, sel, true)
    ensures e.Msg? ==> Shown((front + [e]) + after, sel) == [e.m] + Shown(after, sel)
                       && BeforeFail((front + [e]) + after) == (front + [e]) + BeforeFail(after)
    ensures e.Fail? ==> Shown((front + [e]) + after, sel) == [] && BeforeFail((front + [e]) + after) == front
  {
    var tail := [e] + after;
    assert (front + [e]) + after == front + tail;
    SkippedShowNothing(front, tail, sel);
    ShownCons(e, after, sel);
    JoinFront(front, e, BeforeFail(after));
  }

  lemma JoinFront(front: seq<Event>, e: Event, rest: seq<Event>)
    ensures front + ([e] + rest) == (front + [e]) + rest && front + [] == front
  {
  }

  // What one receive call takes off the front of the service loop's future.
  lemma OneReceive(before: seq<Event>, after: seq<Event>, sel: Selector, msg: Option<Received>)
    requires msg.Some? ==> FoundFirst(before, after, sel, true, msg.value)
    requires msg.None? ==> FailedFirst(before, after, sel, true) || (NothingYet(before, after, sel, true) && after == [])
    ensures msg.Some? ==>
              Shown(before, sel) == [msg.value] + Shown(after, sel) && BeforeFail(before) == Used(before, after) + BeforeFail(after)
    ensures msg.None? ==>
              Shown(before, sel) == [] && PingSenders(BeforeFail(before)) == PingSenders(Used(before, after))
  {
    var used := Used(before, after);
    assert before == used + after;
    if msg.None? && !FailedFirst(before, after, sel, true) {
      SkippedShowNothing(used, after, sel);
      assert used + [] == used;
    } else {
      assert used == Front(used) + [Last(used)];
      SkippedThenEvent(Front(used), Last(used), after, sel);
      TraceSnoc(Front(used), Last(used));
    }
  }

  lemma AnsweredInTurn(a: seq<Sent>, b: seq<Sent>, c: seq<Sent>, first: seq<Identifier>, second: seq<Identifier>)
    requires Answered(a, b, first) && Answered(b, c, second)
    ensures Answered(a, c, first + second)
  {
    var all := first + second;
    assert c[..|a|] == c[..|b|][..|a|];
    forall i | 0 <= i < |all|
      ensures IsAnswer(c[|a| + i], all[i])
    {
      if i < |first| {
        assert all[i] == first[i];
        assert c[|a| + i] == c[..|b|][|a| + i] == b[|a| + i];
      } else {
        var j := i - |first|;
        assert |b| + j == |a| + i && all[i] == second[j];
        assert IsAnswer(c[|b| + j], second[j]);
      }
    }
  }

  /** The service loop so far: `delivered` and the answers sent account for what is no longer to come. */
  ghost predicate Served(origin: seq<Event>, rest: seq<Event>, sel: Selector, delivered: seq<Received>,
                         done: seq<Event>, sentBefore: seq<Sent>, sent: seq<Sent>) {
    && Shown(origin, sel) == delivered + Shown(rest, sel)
    && BeforeFail(origin) == done + BeforeFail(rest)
    && Answered(sentBefore, sent, PingSenders(done))
  }

  lemma Regroup<T>(a: seq<T>, b: seq<T>, c: seq<T>)
    ensures a + (b + c) == (a + b) + c
  {
  }

  lemma AnsweredToo(done: seq<Event>, used: seq<Event>, sentBefore: seq<Sent>, midSent: seq<Sent>, sent: seq<Sent>)
    requires Answered(sentBefore, midSent, PingSenders(done)) && Answered(midSent, sent, PingSenders(used))
    ensures Answered(sentBefore, sent, PingSenders(done + used))
  {
    AnsweredInTurn(sentBefore, midSent, sent, PingSenders(done), PingSenders(used));
    TraceConcat(done, used);
  }

  lemma ServedOneMore(origin: seq<Event>, mid: seq<Event>, rest: seq<Event>, sel: Selector, delivered: seq<Received>,
                      done: seq<Event>, sentBefore: seq<Sent>, midSent: seq<Sent>, sent: seq<Sent>, m: Received)
    requires Served(origin, mid, sel, delivered, done, sentBefore, midSent)
    requires FoundFirst(mid, rest, sel, true, m) && Answered(midSent, sent, PingSenders(Used(mid, rest)))
    ensures Served(origin, rest, sel, delivered + [m], done + Used(mid, rest), sentBefore, sent)
  {
    OneReceive(mid, rest, sel, Some(m));
    AnsweredToo(done, Used(mid, rest), sentBefore, midSent, sent);
    Regroup(delivered, [m], Shown(rest, sel));
    Regroup(done, Used(mid, rest), BeforeFail(rest));
  }

  lemma ServedAll(origin: seq<Event>, mid: seq<Event>, rest: seq<Event>, sel: Selector, delivered: seq<Received>,
                  done: seq<Event>, sentBefore: seq<Sent>, midSent: seq<Sent>, sent: seq<Sent>)
    requires Served(origin, mid, sel, delivered, done, sentBefore, midSent)
    requires FailedFirst(mid, rest, sel, true) || (NothingYet(mid, rest, sel, true) && rest == [])
    requires Answered(midSent, sent, PingSenders(Used(mid, rest)))
    ensures delivered == Shown(origin, sel) && Answered(sentBefore, sent, PingSenders(BeforeFail(origin)))
  {
    OneReceive(mid, rest, sel, None);
    AnsweredInTurn(sentBefore, midSent, sent, PingSenders(done), PingSenders(Used(mid, rest)));
    TraceConcat(done, BeforeFail(mid));
  }

  /** The service loop: receive for ever with one selector, until a receive comes back empty. */
  method ServeAll(server: GenericSimpleServer, sel: Selector) returns (delivered: seq<Received>)
    requires WellTyped(server.socket.incoming, server.socket.unix) && server.socket.open
    modifies server.socket`now, server.socket`incoming, server.socket`waited, server.socket`refusals, server.socket`sent
    ensures delivered == Shown(old(server.socket.incoming), sel)
    ensures Answered(old(server.socket.sent), server.socket.sent, PingSenders(BeforeFail(old(server.socket.incoming))))
  {
    var socket := server.socket;
    ghost var origin, sentBefore := socket.incoming, socket.sent;
    ghost var done: seq<Event> := [];
    delivered := [];
    while true
      invariant WellTyped(socket.incoming, socket.unix)
      invariant Served(origin, socket.incoming, sel, delivered, done, sentBefore, socket.sent)
      decreases |socket.incoming|
    {
      ghost var mid, midSent := socket.incoming, socket.sent;
      var msg := server.Receive(INFINITE_TIMEOUT, sel);
      if msg.None? {
        ServedAll(origin, mid, socket.incoming, sel, delivered, done, sentBefore, midSent, socket.sent);
        return;
      }
      ServedOneMore(origin, mid, socket.incoming, sel, delivered, done, sentBefore, midSent, socket.sent, msg.value);
      done := done + Used(mid, socket.incoming);
      delivered := delivered + [msg.value];
    }
  }

  /** A service loop with one selector shows, of the messages but the PINGs before the first failure, those it matches. */
  lemma {:induction false} ShownAreChosen(trace: seq<Event>, sel: Selector)
    ensures Shown(trace, sel) == Chosen(NonPing(BeforeFail(trace)), sel)
  {
    if trace != [] && trace[0].Msg? {
      var e, rest := trace[0], BeforeFail(trace[1..]);
      ShownAreChosen(trace[1..], sel);
      TraceConcat([e], rest);
      TraceSnoc([], e);
      assert [] + [e] == [e];
      ChosenConcat(NonPing([e]), NonPing(rest), sel);
    }
  }

  /** With the match-any selector that is every message but the PINGs. */
  lemma AnyShowsAllButPings(trace: seq<Event>)
    ensures Shown(trace, ANY) == NonPing(BeforeFail(trace))
  {
    ShownAreChosen(trace, ANY);
    ChosenAny(NonPing(BeforeFail(trace)));
  }

  lemma {:induction false} FailuresShowNothing(trace: seq<Event>)
    requires forall i :: 0 <= i < |trace| ==> trace[i].Fail?
    ensures NonPing(trace) == [] && PingSenders(trace) == []
  {
    if trace != [] {
      FailuresShowNothing(trace[..|trace| - 1]);
    }
  }

  /** If nothing but failures follows the first failure, no message is lost by looking only at what came before it. */
  lemma {:induction false} NothingAfterFailure(trace: seq<Event>)
    requires FailuresLast(trace)
    ensures NonPing(BeforeFail(trace)) == NonPing(trace)
    ensures PingSenders(BeforeFail(trace)) == PingSenders(trace)
  {
    if trace != [] {
      if trace[0].Fail? {
        FailuresShowNothing(trace);
      } else {
        var e, rest := trace[0], trace[1..];
        NothingAfterFailure(rest);
        TraceConcat([e], rest);
        TraceConcat([e], BeforeFail(rest));
        assert trace == [e] + rest;
      }
    }
  }
}
