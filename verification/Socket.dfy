/**
 * The datagram socket and the clock its users see. Bodies here are one socket among many:
 * callers know a socket only by these contracts, which are all the assumptions made about it.
 */
module Sockets {
  import opened Wrappers
  import opened Identifiers
  import opened Messages
  import opened Deadlines

  type Positive = x: int | 0 < x witness 1

  datatype Sent = Sent(message: RawMessage, to: Identifier, result: int)

  /** The addresses a socket reports are of its own class. */
  predicate WellTyped(incoming: seq<Event>, unix: bool) {
    forall i :: 0 <= i < |incoming| && incoming[i].Msg? ==> incoming[i].m.from.UnixInfo? == unix
  }

  class Socket {
    const unix: bool            // which address class this socket speaks
    const overhead: Positive    // the most nanoseconds a call takes beyond the time it waits
    var open: bool
    var now: int                // the steady clock
    var incoming: seq<Event>    // what will arrive, in order
    ghost var sent: seq<Sent>   // every send tried so far
    ghost var waited: nat       // nanoseconds spent waiting inside receive so far
    ghost var refusals: nat     // receives that came back without a message so far

    constructor (unix: bool, overhead: Positive, now: int, incoming: seq<Event>)
      ensures this.unix == unix && this.overhead == overhead && open && this.now == now
      ensures this.incoming == incoming && sent == [] && waited == 0 && refusals == 0
    {
      this.unix, this.overhead, this.open, this.now, this.incoming := unix, overhead, true, now, incoming;
      this.sent, this.waited, this.refusals := [], 0, 0;
    }

    method ReadClock() returns (t: int)
      modifies this`now
      ensures t == now && old(now) <= now <= old(now) + overhead
    {
      t := now;
    }

    method Send(message: RawMessage, to: Identifier) returns (result: int)
      modifies this`now, this`sent
      ensures old(now) < now <= old(now) + overhead
      ensures sent == old(sent) + [Sent(message, to, result)]
      ensures !open ==> result < 0
    {
      result := if open then 0 else -1;
      now := now + 1;
      sent := sent + [Sent(message, to, result)];
    }

    /**
     * A positive result hands over the next arrival; a non-positive one is an arriving error, a timeout
     * that was waited out, or a closed socket. An infinite wait ends without an arrival only when
     * nothing will ever arrive, which is the socket being closed under the caller.
     */
    method Receive(timeoutMs: int) returns (ret: int, got: Option<Received>)
      requires INFINITE_TIMEOUT <= timeoutMs
      modifies this`now, this`incoming, this`waited, this`refusals
      ensures 0 < ret <==> got.Some?
      ensures refusals == old(refusals) + if got.None? then 1 else 0
      ensures got.Some? ==> open && old(incoming) != [] && old(incoming)[0] == Msg(got.value) && incoming == old(incoming)[1..]
      ensures got.None? ==>
                || incoming == old(incoming)
                || (old(incoming) != [] && old(incoming)[0].Fail? && incoming == old(incoming)[1..])
      ensures got.None? && incoming == old(incoming) && open ==>
                if timeoutMs == INFINITE_TIMEOUT then incoming == []
                else ret == 0 && old(now) + timeoutMs * MS <= now
      ensures old(waited) <= waited
      ensures timeoutMs != INFINITE_TIMEOUT ==> waited - old(waited) <= timeoutMs * MS
      ensures old(now) + (waited - old(waited)) <= now <= old(now) + (waited - old(waited)) + overhead
    {
      got := None;
      if !open {
        refusals := refusals + 1;
        return -1, None;
      }
      if incoming != [] {
        if incoming[0].Msg? {
          ret, got := 1, Some(incoming[0].m);
        } else {
          ret, refusals := -1, refusals + 1;
        }
        incoming := incoming[1..];
      } else {
        ret, refusals := 0, refusals + 1;
        if timeoutMs != INFINITE_TIMEOUT {
          now := now + timeoutMs * MS;
          waited := waited + timeoutMs * MS;
        }
      }
    }

    /**
     * The receive at the head of both receive loops: for what is left until a deadline made when the clock read t0.
     */
    method ReceiveUntil(deadline: Deadline, ghost t0: int, ghost waitedBefore: int) returns (ret: int, got: Option<Received>)
      requires OnTime(deadline, t0, now, waited - waitedBefore, 0)
      modifies this`now, this`incoming, this`waited, this`refusals
      ensures 0 < ret <==> got.Some?
      ensures refusals == old(refusals) + if got.None? then 1 else 0
      ensures got.Some? ==> open && old(incoming) != [] && old(incoming)[0] == Msg(got.value) && incoming == old(incoming)[1..]
      ensures got.None? ==>
                || incoming == old(incoming)
                || (old(incoming) != [] && old(incoming)[0].Fail? && incoming == old(incoming)[1..])
      ensures got.None? && incoming == old(incoming) && open ==> Exhausted(deadline, t0, now, incoming)
      ensures old(waited) <= waited && old(now) <= now
      ensures OnTime(deadline, t0, now, waited - waitedBefore, 2 * overhead)
    {
      ghost var before, sofar := now, waited;
      var t := ReadClock();
      RemainingRoundsDown(deadline, t);
      ret, got := Receive(RemainingTimeMs(deadline, t));
      OnePass(deadline, t0, before, t, now, sofar - waitedBefore, waited - sofar, overhead, overhead);
      if got.None? && incoming == old(incoming) && open && deadline.At? {
        WaitExhausts(deadline, t0, t, now, incoming);
      }
    }
  }
}
