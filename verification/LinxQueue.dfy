/** The selective bounded queue as the class its callers hold. */
module Queue {
  import opened Wrappers
  import opened Messages
  import opened QueueSpec
  import opened EventFd

  /** One sleep of a waiting get: what other threads did to the queue meanwhile, and how it ended. */
  datatype Sleep = Sleep(ops: seq<Op>, timedOut: bool)

  /** None of the first n sleeps ended because the time was up. */
  predicate NoTimeout(sleeps: seq<Sleep>, n: nat) {
    n <= |sleeps| && forall i :: 0 <= i < n ==> !sleeps[i].timedOut
  }

  /** The queue as the other threads alone would leave it after the first n sleeps. */
  function Meanwhile(q: QState, sleeps: seq<Sleep>, n: nat): QState
    requires n <= |sleeps|
  {
    if n == 0 then q else ApplyOps(Meanwhile(q, sleeps, n - 1), sleeps[n - 1].ops)
  }

  /** At none of the first n evaluations of the predicate was there a reason to return. */
  ghost predicate NothingFor(q: QState, sleeps: seq<Sleep>, n: nat, sel: Selector)
    requires n <= |sleeps|
  {
    n == 0 || (NothingFor(q, sleeps, n - 1, sel) && NoReason(Meanwhile(q, sleeps, n - 1), sel))
  }

  ghost predicate NoReason(q: QState, sel: Selector) {
    Found(q, sel).None? && !q.stopped
  }

  /**
   * What a waiting get has done after n sleeps: one removal from what the others left, nothing before it.
   */
  ghost predicate Waited(q: QState, sleeps: seq<Sleep>, n: nat, sel: Selector, q': QState, msg: Option<Received>) {
    && n <= |sleeps|
    && q' == TakeFrom(Meanwhile(q, sleeps, n), sel)
    && msg == Found(Meanwhile(q, sleeps, n), sel)
    && NothingFor(q, sleeps, n, sel)
  }

  // The first predicate run, before any sleep.
  lemma WaitedAtOnce(q: QState, sleeps: seq<Sleep>, sel: Selector)
    ensures Waited(q, sleeps, 0, sel, TakeFrom(q, sel), Found(q, sel))
  {
  }

  // A predicate run that found nothing, and then one more sleep and one more run.
  lemma WaitedOnce(q: QState, sleeps: seq<Sleep>, n: nat, sel: Selector, q': QState)
    requires Waited(q, sleeps, n, sel, q', None) && n < |sleeps| && !q'.stopped
    ensures var seen := ApplyOps(q', sleeps[n].ops);
            Waited(q, sleeps, n + 1, sel, TakeFrom(seen, sel), Found(seen, sel))
  {
    assert q' == Meanwhile(q, sleeps, n);
    assert NoReason(q', sel);
  }

  // Taking nothing leaves the queue as it was, with nothing to take.
  lemma NothingLeft(q: QState, sel: Selector)
    ensures Found(q, sel).None? ==> TakeFrom(q, sel) == q
  {
  }

  class LinxQueue {
    const efd: LinxEventFd
    const maxSize: Int32
    var queue: seq<Received>
    var stopped: bool

    constructor (efd: LinxEventFd, size: Int32)
      ensures this.efd == efd && maxSize == size && queue == [] && !stopped
      ensures efd.count == 0 ==> Sane(State())
    {
      this.efd := efd;
      this.maxSize := size;
      this.queue := [];
      this.stopped := false;
    }

    function State(): QState
      reads this, efd
    {
      QState(queue, stopped, maxSize, 0 <= efd.efd, efd.count)
    }

    /**
     * `kept` is the caller's pointer after the call: a refused message is still the caller's,
     * an accepted one has been moved into the queue.
     */
    method Add(msg: Received) returns (result: int, kept: Option<Received>)
      modifies this`queue, efd`count
      ensures State() == AddTo(old(State()), msg)
      ensures 0 <= maxSize ==> (result == 0 <==> |old(queue)| < maxSize)
      ensures maxSize < 0 ==> (result == 0 <==> |old(queue)| < 0x1_0000_0000_0000_0000 + maxSize)
      ensures result == 0 ==> queue == old(queue) + [msg] && kept == None
      ensures result != 0 ==> result == -1 && queue == old(queue) && efd.count == old(efd.count) && kept == Some(msg)
    {
      result, kept := -1, Some(msg);
      if |queue| < Limit(maxSize) {
        queue, kept := queue + [msg], None;
        var _ := efd.WriteEvent();
        result := 0;
      }
    }

    method Stop()
      modifies this`queue, this`stopped, efd`count
      ensures State() == StopQueue(old(State()))
    {
      stopped := true;
      queue := [];
      efd.ClearEvents();
    }

    method Clear()
      modifies this`queue, efd`count
      ensures State() == ClearAll(old(State()))
    {
      queue := [];
      efd.ClearEvents();
    }

    /** The oldest message that matches leaves the queue and is the one returned. */
    method FindMessage(sel: Selector) returns (msg: Option<Received>)
      modifies this`queue, efd`count
      ensures State() == TakeFrom(old(State()), sel) && msg == Found(old(State()), sel)
      ensures msg.None? <==> forall j :: 0 <= j < |old(queue)| ==> !Matches(old(queue)[j], sel)
      ensures msg.Some? ==> exists k ::
                  0 <= k < |old(queue)| && old(queue)[k] == msg.value && Matches(msg.value, sel)
                  && (forall j :: 0 <= j < k ==> !Matches(old(queue)[j], sel))
                  && queue == old(queue)[..k] + old(queue)[k + 1..]
      ensures msg.None? ==> queue == old(queue)
    {
      var it := 0;
      while it < |queue| && !Matches(queue[it], sel)
        invariant 0 <= it <= |queue|
        invariant forall j :: 0 <= j < it ==> !Matches(queue[j], sel)
        invariant queue == old(queue) && efd.count == old(efd.count)
      {
        it := it + 1;
      }
      assert it == FirstMatch(queue, sel);
      if it < |queue| {
        msg := Some(queue[it]);
        queue := queue[..it] + queue[it + 1..];
        var _ := efd.ReadEvent();
      } else {
        msg := None;
      }
    }

    method GetMessage(sel: Selector) returns (msg: Option<Received>)
      modifies this`queue, efd`count
      ensures State() == TakeFrom(old(State()), sel) && msg == Found(old(State()), sel)
    {
      msg := FindMessage(sel);
    }

    // One critical section of another thread.
    method InterfereOnce(op: Op)
      modifies this`queue, this`stopped, efd`count
      ensures State() == ApplyOp(old(State()), op)
    {
      match op
      case AddOp(m) => var _, _ := Add(m);
      case TakeOp(sel) => var _ := FindMessage(sel);
      case ClearOp => Clear();
      case StopOp => Stop();
    }

    // The critical sections other threads run while this one sleeps.
    method Interfere(ops: seq<Op>)
      modifies this`queue, this`stopped, efd`count
      ensures State() == ApplyOps(old(State()), ops)
    {
      for i := 0 to |ops|
        invariant ApplyOps(State(), ops[i..]) == ApplyOps(old(State()), ops)
      {
        InterfereOnce(ops[i]);
      }
    }

    // One run of the wait predicate, which takes what it finds.
    method RunPredicate(sel: Selector) returns (satisfied: bool, msg: Option<Received>)
      modifies this`queue, efd`count
      ensures State() == TakeFrom(old(State()), sel) && msg == Found(old(State()), sel)
      ensures satisfied <==> msg.Some? || stopped
      ensures msg.None? ==> Found(State(), sel).None?
    {
      NothingLeft(State(), sel);
      msg := FindMessage(sel);
      satisfied := msg.Some? || stopped;
    }

    // The lock is given up and taken again, and the predicate runs once.
    method SleepThenRun(sleeps: seq<Sleep>, n: nat, sel: Selector, ghost start: QState)
      returns (satisfied: bool, msg: Option<Received>)
      requires Waited(start, sleeps, n, sel, State(), None) && n < |sleeps| && !stopped
      modifies this`queue, this`stopped, efd`count
      ensures Waited(start, sleeps, n + 1, sel, State(), msg)
      ensures satisfied <==> msg.Some? || stopped
      ensures msg.None? ==> Found(State(), sel).None?
    {
      WaitedOnce(start, sleeps, n, sel, State());
      Interfere(sleeps[n].ops);
      satisfied, msg := RunPredicate(sel);
    }

    /**
     * Both waiting forms of get, as the predicate loops of section [thread.condition.condvar] of ISO C++17.
     * `sleeps` is whatever the scheduler and the other threads do; `returned` is false when the
     * call is still asleep after all of them, and `woken` counts the sleeps it went through.
     *
     * Whatever happens, the call has the effect of one removal at one instant: up to then it only
     * watched the others, and what that removal took is exactly what it returns.
     */
    method WaitForMessage(sel: Selector, timed: bool, sleeps: seq<Sleep>)
      returns (returned: bool, msg: Option<Received>, woken: nat)
      modifies this`queue, this`stopped, efd`count
      ensures Waited(old(State()), sleeps, woken, sel, State(), msg)
      ensures msg.Some? ==> returned
      ensures !returned ==> woken == |sleeps| && !stopped && Found(State(), sel).None?
      ensures returned && msg.None? ==> stopped || (timed && 0 < woken && sleeps[woken - 1].timedOut)
      ensures old(stopped) ==> returned && woken == 0
      ensures timed ==> NoTimeout(sleeps, if !returned then |sleeps| else if woken == 0 then 0 else woken - 1)
    {
      ghost var start := State();
      WaitedAtOnce(start, sleeps, sel);
      returned, msg := RunPredicate(sel);
      woken := 0;
      while !returned && woken < |sleeps|
        invariant Waited(start, sleeps, woken, sel, State(), msg)
        invariant msg.Some? || stopped ==> returned
        invariant returned && msg.None? ==> stopped || (timed && 0 < woken && sleeps[woken - 1].timedOut)
        invariant !returned ==> Found(State(), sel).None?
        invariant start.stopped ==> returned && woken == 0
        invariant timed ==> NoTimeout(sleeps, if !returned || woken == 0 then woken else woken - 1)
      {
        var satisfied;
        satisfied, msg := SleepThenRun(sleeps, woken, sel, start);
        woken := woken + 1;
        returned := satisfied || (timed && sleeps[woken - 1].timedOut);
      }
    }

    method Get(timeoutMs: Int32, sel: Selector, sleeps: seq<Sleep>)
      returns (returned: bool, msg: Option<Received>, woken: nat)
      modifies this`queue, this`stopped, efd`count
      ensures Waited(old(State()), sleeps, woken, sel, State(), msg)
      ensures timeoutMs == 0 ==> returned && woken == 0
      ensures old(stopped) ==> returned && woken == 0
      ensures msg.Some? ==> returned
      ensures !returned ==> !stopped && Found(State(), sel).None?
      ensures returned && msg.None? ==>
                timeoutMs == 0 || stopped
                || (timeoutMs != -1 && 0 < woken && sleeps[woken - 1].timedOut)
      ensures timeoutMs != -1 ==>
                NoTimeout(sleeps, if !returned then |sleeps| else if woken == 0 then 0 else woken - 1)
    {
      if timeoutMs == IMMEDIATE_TIMEOUT {
        msg := GetMessage(sel);
        returned, woken := true, 0;
      } else if timeoutMs == INFINITE_TIMEOUT {
        returned, msg, woken := WaitForMessage(sel, false, sleeps);
      } else {
        returned, msg, woken := WaitForMessage(sel, true, sleeps);
      }
    }

    /** Polling the queue's descriptor finds it readable exactly when a match-any get would find a message. */
    lemma PollIsTruthful()
      requires Sane(State()) && 0 <= efd.efd
      ensures efd.Readable() <==> Found(State(), ANY).Some?
    {
      FoundIffMatch(State(), ANY);
      if |queue| > 0 {
        assert Matches(queue[0], ANY);
      }
    }

    // Narrowed to int as the source does: exact for every queue a size of 0 or more allows.
    method Size() returns (n: int)
      ensures -0x8000_0000 <= n < 0x8000_0000
      ensures |queue| < 0x8000_0000 ==> n == |queue|
      ensures Bounded(State()) && 0 <= maxSize ==> n == |queue| <= maxSize
    {
      var narrowed := |queue| % 0x1_0000_0000;
      n := if narrowed < 0x8000_0000 then narrowed else narrowed - 0x1_0000_0000;
    }
  }

  predicate Sane(q: QState) {
    Bounded(q) && Agrees(q)
  }

  /**
   * Poll agreement and the capacity bound survive any critical section of any thread.
   * The agreement needs the size not to be -1, whose unsigned reading exceeds the largest
   * eventfd count by one.
   */
  lemma OpKeepsAgreement(q: QState, op: Op)
    requires Sane(q) && q.maxSize != -1
    ensures var q' := ApplyOp(q, op); Sane(q') && q'.maxSize == q.maxSize && q'.efdOpen == q.efdOpen
    ensures op.TakeOp? && HasMatch(q, op.sel) && q.efdOpen ==> 0 < q.count
    ensures q.efdOpen ==> (0 < q.count <==> HasMatch(q, ANY))
  {
    if |q.items| > 0 {
      assert Matches(q.items[0], ANY);
    }
  }

  lemma {:induction false} AgreementOverRuns(q: QState, ops: seq<Op>)
    requires Sane(q) && q.maxSize != -1
    ensures var q' := ApplyOps(q, ops);
            Sane(q') && q'.maxSize == q.maxSize && q'.efdOpen == q.efdOpen
            && (q.efdOpen ==> (0 < q'.count <==> Found(q', ANY).Some?))
    decreases |ops|
  {
    if ops == [] {
      OpKeepsAgreement(q, ClearOp);
      FoundIffMatch(q, ANY);
    } else {
      OpKeepsAgreement(q, ops[0]);
      AgreementOverRuns(ApplyOp(q, ops[0]), ops[1..]);
    }
  }

  /**
   * At size -1 one more message than the counter can count is accepted, and agreement is lost:
   * the operation keeps it exactly when it is not that addition.
   */
  lemma AgreementExactly(q: QState, m: Received)
    requires Sane(q) && q.efdOpen
    ensures Agrees(AddTo(q, m)) <==> q.count < EFD_MAX || !Accepts(q)
    ensures !Agrees(AddTo(q, m)) ==> q.maxSize == -1
  {
  }

  function Copies<T>(x: T, n: nat): (r: seq<T>)
    ensures |r| == n && forall i :: 0 <= i < n ==> r[i] == x
  {
    seq(n, _ => x)
  }

  // A queue of size -1 after k additions of one message.
  function Filled(m: Received, k: nat): QState {
    QState(Copies(m, k), false, -1, true, if k <= EFD_MAX then k else EFD_MAX)
  }

  lemma {:induction false} AddsAccumulate(m: Received, k: nat, n: nat)
    requires k + n <= EFD_MAX + 1
    ensures ApplyOps(Filled(m, k), Copies(AddOp(m), n)) == Filled(m, k + n)
    decreases n
  {
    if n > 0 {
      AddsAccumulate(m, k + 1, n - 1);
      assert Copies(AddOp(m), n)[1..] == Copies(AddOp(m), n - 1);
      assert Copies(m, k) + [m] == Copies(m, k + 1);
    }
  }

  /** At size -1 it does fail: after 2^64 - 1 additions, and no fewer, the counter is one behind. */
  lemma AgreementLost(m: Received, n: nat)
    requires n <= EFD_MAX + 1
    ensures var q := QState([], false, -1, true, 0);
            Sane(q) && (Agrees(ApplyOps(q, Copies(AddOp(m), n))) <==> n <= EFD_MAX)
  {
    assert Copies(m, 0) == [];
    AddsAccumulate(m, 0, n);
  }
}
