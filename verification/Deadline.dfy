/** Deadlines on the monotone clock: nanoseconds inside, milliseconds at the interface. */
module Deadlines {
  import opened Messages

  const MS: nat := 1_000_000

  /** `Never` is the clock's largest time point, which stands for an infinite timeout. */
  datatype Deadline = Never | At(ns: int)

  function MakeDeadline(timeoutMs: Int32, now: int): Deadline {
    if timeoutMs != INFINITE_TIMEOUT then At(now + timeoutMs * MS) else Never
  }

  predicate IsExpired(d: Deadline, now: int) {
    d.At? && d.ns < now
  }

  function RemainingTimeMs(d: Deadline, now: int): int {
    if d.Never? then INFINITE_TIMEOUT
    else if d.ns <= now then 0
    else (d.ns - now) / MS
  }

  function Min(a: int, b: int): int {
    if a < b then a else b
  }

  function AtLeastZero(x: int): nat {
    if x < 0 then 0 else x
  }

  /**
   * For a finite timeout the remaining time is never the infinite marker, never exceeds the timeout,
   * never grows, and is zero from less than one millisecond before the deadline on. Waiting that long never
   * overshoots the deadline; it reaches it exactly when what is left is a whole number of milliseconds, and
   * otherwise falls short of it by less than one.
   */
  lemma RemainingLaws(timeoutMs: Int32, start: int, now: int, later: int)
    requires timeoutMs != INFINITE_TIMEOUT && start <= now <= later
    ensures var d := MakeDeadline(timeoutMs, start);
            var r := RemainingTimeMs(d, now);
            && d.ns == start + timeoutMs * 1_000_000
            && 0 <= r <= AtLeastZero(timeoutMs)
            && r != INFINITE_TIMEOUT
            && RemainingTimeMs(d, later) <= r
            && (r == 0 <==> d.ns - now < MS)
            && (IsExpired(d, now) ==> r == 0)
            && (now < d.ns ==> now + r * MS <= d.ns)
            && (now < d.ns ==> (now + r * MS == d.ns <==> (d.ns - now) % MS == 0))
            && d.ns - MS < now + r * MS
  {
  }

  /**
   * A receive that started at t0 is on time: it has waited no longer than the clock allows, and the clock is
   * past the deadline by no more than `slack`.
   */
  predicate OnTime(d: Deadline, t0: int, now: int, waited: int, slack: nat) {
    && t0 <= now && 0 <= waited
    && (d.At? ==>
          && waited <= now - t0 && (waited == 0 || waited <= d.ns - t0)
          && (now <= t0 + slack || now <= d.ns + slack))
  }

  lemma JustMade(timeoutMs: Int32, t0: int)
    ensures OnTime(MakeDeadline(timeoutMs, t0), t0, t0, 0, 0)
  {
  }

  // What is left, rounded down: enough about it for the loops, whatever the deadline was made from.
  lemma RemainingRoundsDown(d: Deadline, t: int)
    ensures d.Never? ==> RemainingTimeMs(d, t) == INFINITE_TIMEOUT
    ensures d.At? ==> 0 <= RemainingTimeMs(d, t)
    ensures d.At? && d.ns <= t ==> RemainingTimeMs(d, t) == 0
    ensures d.At? && t < d.ns ==> RemainingTimeMs(d, t) * MS <= d.ns - t < (RemainingTimeMs(d, t) + 1) * MS
  {
  }

  /** A last wait: `r` is what was left at t, rounded down to milliseconds, and it was waited out. */
  predicate LastWait(d: Deadline, t0: int, t: int, r: int, now: int) {
    && d.At? && t0 <= t && t + r * MS <= now
    && if d.ns <= t then r == 0 else 0 <= r && r * MS <= d.ns - t < (r + 1) * MS
  }

  /** Why a receive whose deadline was made at t0 found nothing on an open socket. */
  ghost predicate Exhausted(d: Deadline, t0: int, now: int, incoming: seq<Event>) {
    if d.Never? then incoming == [] else exists t, r :: LastWait(d, t0, t, r, now)
  }

  lemma WaitExhausts(d: Deadline, t0: int, t: int, now: int, incoming: seq<Event>)
    requires d.At? && t0 <= t && t + RemainingTimeMs(d, t) * MS <= now
    ensures Exhausted(d, t0, now, incoming)
  {
    RemainingRoundsDown(d, t);
    assert LastWait(d, t0, t, RemainingTimeMs(d, t), now);
  }

  lemma ExpiredIsExhausted(d: Deadline, t0: int, now: int, incoming: seq<Event>)
    requires t0 <= now && IsExpired(d, now)
    ensures Exhausted(d, t0, now, incoming)
  {
    assert LastWait(d, t0, now, 0, now);
  }

  /**
   * The clock read t0 when the deadline was made and t before the last wait, and what was left at t was
   * waited out. That falls short of the deadline only if it was no whole number of milliseconds.
   */
  predicate SatOut(timeoutMs: Int32, start: int, late: nat, t0: int, t: int, now: int) {
    && start <= t0 <= start + late && t0 <= t <= now
    && var d := MakeDeadline(timeoutMs, t0);
       d.At? ==> t + RemainingTimeMs(d, t) * MS <= now && (now < d.ns ==> (d.ns - t) % MS != 0)
  }

  /**
   * Why a receive that began at `start` found nothing on an open socket: nothing will ever come, or the time is
   * up, to within less than the millisecond its last wait was rounded down by.
   */
  ghost predicate TimeIsUp(timeoutMs: Int32, start: int, late: nat, now: int, incoming: seq<Event>) {
    if timeoutMs == INFINITE_TIMEOUT then incoming == []
    else start + (timeoutMs - 1) * MS < now && exists t0, t :: SatOut(timeoutMs, start, late, t0, t, now)
  }

  /** A receive may come back at once with time left: 1 ms to go and the clock a nanosecond on, it does not wait. */
  lemma EarlyReturn(incoming: seq<Event>)
    ensures RemainingTimeMs(MakeDeadline(1, 0), 1) == 0 && 1 < MakeDeadline(1, 0).ns
    ensures TimeIsUp(1, 0, 1, 1, incoming)
  {
    assert SatOut(1, 0, 1, 0, 1, 1);
  }

  /** Whatever the clock reads, a wait reaches the deadline: that holds of exactly the timeouts of 0 and less. */
  lemma EarlyExactly(timeoutMs: Int32)
    requires timeoutMs != INFINITE_TIMEOUT
    ensures (forall start, now :: start <= now ==>
               MakeDeadline(timeoutMs, start).ns <= now + RemainingTimeMs(MakeDeadline(timeoutMs, start), now) * MS)
            <==> timeoutMs <= 0
  {
    RemainingLaws(timeoutMs, 0, 1, 1);
    assert 0 < timeoutMs ==> MakeDeadline(timeoutMs, 0).ns > 1 + RemainingTimeMs(MakeDeadline(timeoutMs, 0), 1) * MS;
  }

  lemma LastWaitSatOut(timeoutMs: Int32, t0: int, t: int, r: int, now: int)
    requires LastWait(MakeDeadline(timeoutMs, t0), t0, t, r, now)
    ensures SatOut(timeoutMs, t0, 0, t0, t, now) && t0 + (timeoutMs - 1) * MS < now
  {
    RemainingRoundsDown(MakeDeadline(timeoutMs, t0), t);
    RemainingLaws(timeoutMs, t0, t, t);
    assert r == RemainingTimeMs(MakeDeadline(timeoutMs, t0), t);
  }

  /** What being exhausted means for a caller who called at `start`. */
  lemma ExhaustedSince(timeoutMs: Int32, start: int, late: nat, t0: int, now: int, incoming: seq<Event>)
    requires start <= t0 <= start + late && Exhausted(MakeDeadline(timeoutMs, t0), t0, now, incoming)
    ensures TimeIsUp(timeoutMs, start, late, now, incoming)
  {
    if timeoutMs != INFINITE_TIMEOUT {
      var t, r :| LastWait(MakeDeadline(timeoutMs, t0), t0, t, r, now);
      LastWaitSatOut(timeoutMs, t0, t, r, now);
      assert SatOut(timeoutMs, start, late, t0, t, now);
    }
  }

  /** ... and for one who did something else first. */
  lemma TimeIsUpSince(timeoutMs: Int32, start: int, early: nat, later: int, late: nat, now: int, incoming: seq<Event>)
    requires start <= later <= start + early && TimeIsUp(timeoutMs, later, late, now, incoming)
    ensures TimeIsUp(timeoutMs, start, early + late, now, incoming)
  {
    if timeoutMs != INFINITE_TIMEOUT {
      var t0, t :| SatOut(timeoutMs, later, late, t0, t, now);
      assert SatOut(timeoutMs, start, early + late, t0, t, now);
    }
  }

  /** One pass: the clock is read, the socket waits at most the remaining time, and at most `extra` more goes by. */
  lemma OnePass(d: Deadline, t0: int, before: int, t: int, after: int, waited: int, wait: nat, late: nat, extra: nat)
    requires OnTime(d, t0, before, waited, 0) && before <= t <= before + late
    requires d.At? ==> wait <= RemainingTimeMs(d, t) * MS
    requires t + wait <= after <= t + wait + extra
    ensures OnTime(d, t0, after, waited + wait, late + extra)
  {
    RemainingRoundsDown(d, t);
  }

  lemma MoreSlack(d: Deadline, t0: int, now: int, later: int, waited: int, slack: nat, extra: nat)
    requires OnTime(d, t0, now, waited, slack) && now <= later <= now + extra
    ensures OnTime(d, t0, later, waited, slack + extra)
  {
  }

  /** Checking the deadline either finds it passed, or leaves the next pass no slack to make up. */
  lemma CheckDeadline(d: Deadline, t0: int, now: int, t: int, waited: int, slack: nat, late: nat)
    requires OnTime(d, t0, now, waited, slack) && now <= t <= now + late
    ensures OnTime(d, t0, t, waited, if IsExpired(d, t) then slack + late else 0)
  {
  }

  /** What being on time means for a caller who called at `start`. */
  lemma TimeBounds(timeoutMs: Int32, start: int, t0: int, now: int, waited: int, slack: nat, late: nat)
    requires start <= t0 <= start + late && OnTime(MakeDeadline(timeoutMs, t0), t0, now, waited, slack)
    ensures timeoutMs != INFINITE_TIMEOUT ==>
              waited <= AtLeastZero(timeoutMs) * MS && now <= start + AtLeastZero(timeoutMs) * MS + late + slack
  {
  }

  /** A caller who finds the deadline expired has waited for longer than the timeout. */
  lemma ExpiredIsLate(timeoutMs: Int32, start: int, t0: int, now: int)
    requires start <= t0 && IsExpired(MakeDeadline(timeoutMs, t0), now)
    ensures timeoutMs != INFINITE_TIMEOUT && start + timeoutMs * MS < now
  {
  }

  /** A clock that has ticked more often than the timeout has nanoseconds is past the deadline. */
  lemma TicksExpire(timeoutMs: Int32, t0: int, ticks: int, now: int)
    ensures timeoutMs != INFINITE_TIMEOUT && AtLeastZero(timeoutMs) * MS < ticks && t0 + ticks <= now ==>
              IsExpired(MakeDeadline(timeoutMs, t0), now)
  {
  }
}
