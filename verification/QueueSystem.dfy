/**
 * Any number of threads on one queue. A step is one critical section, one wake-up, or one
 * notify_all; the condition variable may wake a sleeper at any time for no reason.
 */
module QueueSystem {
  import opened Wrappers
  import opened Messages
  import opened QueueSpec

  datatype Tid = App(n: nat) | Worker(n: nat) | Controller

  datatype Mode = Immediate | Forever | Timed

  datatype Phase = Entering | Asleep | Woken(timedOut: bool)

  /** Where a thread is inside a queue call. Messages are named by the order they were accepted in. */
  datatype PC =
    | Notifying                                                        // add: unlocked, not yet notified
    | Waiting(sel: Selector, mode: Mode, phase: Phase, msg: Option<nat>) // get: before or between predicate runs
    | Returning(sel: Selector, msg: Option<nat>)                       // get: lock released, about to return

  datatype Departure = Taken(stamp: nat, tid: Tid, sel: Selector) | Cleared(stamp: nat)

  datatype Return = Return(tid: Tid, sel: Selector, msg: Option<nat>)

  /** The queue, the stamps of its messages, the threads inside it, and the history of the run. */
  datatype State = State(
    q: QState,
    stamps: seq<nat>,
    threads: map<Tid, PC>,
    accepted: seq<Received>,
    departed: seq<Departure>,
    returned: seq<Return>)

  datatype Step =
    | Add(t: Tid, m: Received)
    | Notify(t: Tid)
    | Clear(t: Tid)
    | Stop(t: Tid)
    | CallGet(t: Tid, mode: Mode, sel: Selector)
    | Evaluate(t: Tid)
    | WakeUp(t: Tid)
    | Expire(t: Tid)
    | ReturnGet(t: Tid)

  function Init(maxSize: Int32, efdOpen: bool): State {
    State(QState([], false, maxSize, efdOpen, 0), [], map[], [], [], [])
  }

  predicate IsAsleep(s: State, t: Tid) {
    t in s.threads && s.threads[t].Waiting? && s.threads[t].phase == Asleep
  }

  predicate Enabled(s: State, step: Step) {
    && |s.stamps| == |s.q.items|
    && match step
       case Add(t, _) => t !in s.threads
       case Clear(t) => t !in s.threads
       case Stop(t) => t !in s.threads
       case CallGet(t, _, _) => t !in s.threads
       case Notify(t) => t in s.threads && s.threads[t] == Notifying
       case Evaluate(t) => t in s.threads && s.threads[t].Waiting? && s.threads[t].phase != Asleep
       case WakeUp(t) => IsAsleep(s, t)
       case Expire(t) => t in s.threads && s.threads[t].Waiting? && s.threads[t].mode == Timed && s.threads[t].phase != Entering
       case ReturnGet(t) => t in s.threads && s.threads[t].Returning?
  }

  function Roused(pc: PC): PC {
    if pc.Waiting? && pc.phase == Asleep then pc.(phase := Woken(false)) else pc
  }

  function NotifyAll(threads: map<Tid, PC>): map<Tid, PC> {
    map t | t in threads :: Roused(threads[t])
  }

  function ClearedOf(stamps: seq<nat>): (r: seq<Departure>)
    ensures |r| == |stamps|
    ensures forall i :: 0 <= i < |stamps| ==> r[i] == Cleared(stamps[i])
  {
    seq(|stamps|, i requires 0 <= i < |stamps| => Cleared(stamps[i]))
  }

  function Discard(s: State): State {
    s.(q := ClearAll(s.q), stamps := [],
       departed := s.departed + ClearedOf(s.stamps))
  }

  /** One run of the wait predicate: `msg` is overwritten whether or not it held anything. */
  function EvaluateBy(s: State, t: Tid): State
    requires Enabled(s, Evaluate(t))
  {
    var pc := s.threads[t];
    var k := FirstMatch(s.q.items, pc.sel);
    if k < |s.q.items| then
      s.(q := TakeFrom(s.q, pc.sel), stamps := RemoveAt(s.stamps, k),
         departed := s.departed + [Taken(s.stamps[k], t, pc.sel)],
         threads := s.threads[t := Returning(pc.sel, Some(s.stamps[k]))])
    else if pc.mode == Immediate || s.q.stopped || pc.phase == Woken(true) then
      s.(threads := s.threads[t := Returning(pc.sel, None)])
    else
      s.(threads := s.threads[t := pc.(phase := Asleep, msg := None)])
  }

  function Apply(s: State, step: Step): State
    requires Enabled(s, step)
  {
    match step
    case Add(t, m) =>
      if Accepts(s.q) then
        s.(q := AddTo(s.q, m), stamps := s.stamps + [|s.accepted|], accepted := s.accepted + [m],
           threads := s.threads[t := Notifying])
      else
        s.(q := AddTo(s.q, m), threads := s.threads[t := Notifying])
    case Notify(t) => s.(threads := NotifyAll(s.threads - {t}))
    case Clear(t) => Discard(s)
    case Stop(t) => var d := Discard(s); d.(q := StopQueue(s.q), threads := NotifyAll(s.threads))
    case CallGet(t, mode, sel) => s.(threads := s.threads[t := Waiting(sel, mode, Entering, None)])
    case Evaluate(t) => EvaluateBy(s, t)
    case WakeUp(t) => s.(threads := s.threads[t := s.threads[t].(phase := Woken(false))])
    case Expire(t) => s.(threads := s.threads[t := s.threads[t].(phase := Woken(true))])
    case ReturnGet(t) =>
      s.(threads := s.threads - {t},
         returned := s.returned + [Return(t, s.threads[t].sel, s.threads[t].msg)])
  }

  /** The critical section a step runs, if it runs one. */
  function OpOf(s: State, step: Step): Option<Op>
    requires Enabled(s, step)
  {
    match step
    case Add(_, m) => Some(AddOp(m))
    case Clear(_) => Some(ClearOp)
    case Stop(_) => Some(StopOp)
    case Evaluate(t) => Some(TakeOp(s.threads[t].sel))
    case _ => None
  }

  // The steps change the queue only as the methods of Queue.LinxQueue do.
  lemma StepsAreCriticalSections(s: State, step: Step)
    requires Enabled(s, step)
    ensures Apply(s, step).q == if OpOf(s, step).Some? then ApplyOp(s.q, OpOf(s, step).value) else s.q
  {
  }

  /** The state a schedule leads to, or None when it asks for a step that cannot happen. */
  function Exec(s: State, steps: seq<Step>): Option<State> {
    if steps == [] then Some(s) else
      var before := Exec(s, steps[..|steps| - 1]);
      var step := steps[|steps| - 1];
      if before.Some? && Enabled(before.value, step) then Some(Apply(before.value, step)) else None
  }

  ghost predicate Reachable(s: State) {
    exists maxSize: Int32, efdOpen: bool, steps: seq<Step> :: Exec(Init(maxSize, efdOpen), steps) == Some(s)
  }

  // ---------------------------------------------------------------- invariants

  predicate Increasing(stamps: seq<nat>) {
    forall i, j :: 0 <= i < j < |stamps| ==> stamps[i] < stamps[j]
  }

  /** The queue holds accepted messages, oldest first, each named by its stamp. */
  ghost predicate ShapeOf(accepted: seq<Received>, stamps: seq<nat>, items: seq<Received>) {
    && |stamps| == |items|
    && Increasing(stamps)
    && forall i :: 0 <= i < |stamps| ==> stamps[i] < |accepted| && accepted[stamps[i]] == items[i]
  }

  ghost predicate Shape(s: State) {
    ShapeOf(s.accepted, s.stamps, s.q.items)
  }

  predicate Counts(s: State) {
    Bounded(s.q) && (s.q.maxSize != -1 ==> Agrees(s.q))
  }

  ghost predicate Gone(d: seq<Departure>, i: nat) {
    exists k :: 0 <= k < |d| && d[k].stamp == i
  }

  ghost predicate LedgerOf(n: nat, stamps: seq<nat>, departed: seq<Departure>) {
    && (forall k, l :: 0 <= k < l < |departed| ==> departed[k].stamp != departed[l].stamp)
    && (forall k :: 0 <= k < |departed| ==> departed[k].stamp < n)
    && (forall i :: 0 <= i < |stamps| ==> stamps[i] < n)
    && (forall i: nat :: i < n ==> (Gone(departed, i) <==> i !in stamps))
  }

  /** Every accepted message is in the queue or has departed exactly once. */
  ghost predicate Ledger(s: State) {
    LedgerOf(|s.accepted|, s.stamps, s.departed)
  }

  /** A message only leaves to a selector once every older message that selector matches has left. */
  ghost predicate Fifo(s: State) {
    forall k :: 0 <= k < |s.departed| && s.departed[k].Taken? ==> FifoAt(s.accepted, s.departed, k)
  }

  ghost predicate FifoAt(accepted: seq<Received>, departed: seq<Departure>, k: nat)
    requires k < |departed| && departed[k].Taken?
  {
    var d := departed[k];
    && d.stamp < |accepted| && Matches(accepted[d.stamp], d.sel)
    && forall i: nat :: i < d.stamp && Matches(accepted[i], d.sel) ==> Gone(departed[..k], i)
  }

  ghost predicate NobodyNotifying(s: State) {
    forall u :: u in s.threads ==> s.threads[u] != Notifying
  }

  /** No lost wake-up. */
  ghost predicate Awake(s: State) {
    && (s.q.stopped ==> forall t :: !IsAsleep(s, t))
    && (NobodyNotifying(s) ==> forall t :: IsAsleep(s, t) ==> !HasMatch(s.q, s.threads[t].sel))
  }

  predicate TookIt(d: seq<Departure>, stamp: nat, t: Tid, sel: Selector) {
    Taken(stamp, t, sel) in d
  }

  ghost predicate WasReturned(r: seq<Return>, stamp: nat) {
    exists k :: 0 <= k < |r| && r[k].msg == Some(stamp)
  }

  predicate InHand(s: State, stamp: nat, t: Tid, sel: Selector) {
    t in s.threads && s.threads[t] == Returning(sel, Some(stamp))
  }

  /** What a get removed is in its hand until it returns it, and it returns it once. */
  ghost predicate Hands(s: State) {
    && (forall t :: t in s.threads && s.threads[t].Waiting? ==> s.threads[t].msg == None)
    && (forall t :: t in s.threads && s.threads[t].Returning? && s.threads[t].msg.Some? ==>
          TookIt(s.departed, s.threads[t].msg.value, t, s.threads[t].sel)
          && !WasReturned(s.returned, s.threads[t].msg.value))
    && (forall stamp, t, sel :: TookIt(s.departed, stamp, t, sel) ==>
          InHand(s, stamp, t, sel) || Return(t, sel, Some(stamp)) in s.returned)
    && (forall k :: 0 <= k < |s.returned| && s.returned[k].msg.Some? ==>
          TookIt(s.departed, s.returned[k].msg.value, s.returned[k].tid, s.returned[k].sel))
    && (forall k, l :: 0 <= k < l < |s.returned| && s.returned[k].msg.Some? ==> s.returned[k].msg != s.returned[l].msg)
  }

  /** Only a timed wait times out. */
  ghost predicate Timeouts(s: State) {
    forall t :: t in s.threads && s.threads[t].Waiting? && s.threads[t].phase == Woken(true) ==> s.threads[t].mode == Timed
  }

  ghost predicate Inv(s: State) {
    Shape(s) && Counts(s) && Ledger(s) && Fifo(s) && Awake(s) && Hands(s) && Timeouts(s)
  }

  // ---------------------------------------------------------------- each step keeps them

  lemma RemovedAt<T>(s: seq<T>, k: nat, i: nat)
    requires k < |s| && i < |s| - 1
    ensures RemoveAt(s, k)[i] == if i < k then s[i] else s[i + 1]
  {
  }

  lemma ShapeAfterTake(accepted: seq<Received>, stamps: seq<nat>, items: seq<Received>, k: nat)
    requires ShapeOf(accepted, stamps, items) && k < |items|
    ensures ShapeOf(accepted, RemoveAt(stamps, k), RemoveAt(items, k))
  {
    forall i | 0 <= i < |stamps| - 1
      ensures RemoveAt(stamps, k)[i] == if i < k then stamps[i] else stamps[i + 1]
      ensures RemoveAt(items, k)[i] == if i < k then items[i] else items[i + 1]
    {
      RemovedAt(stamps, k, i);
      RemovedAt(items, k, i);
    }
  }

  lemma ShapeKept(s: State, step: Step)
    requires Shape(s) && Enabled(s, step)
    ensures Shape(Apply(s, step))
  {
    if step.Evaluate? {
      var k := FirstMatch(s.q.items, s.threads[step.t].sel);
      if k < |s.q.items| {
        ShapeAfterTake(s.accepted, s.stamps, s.q.items, k);
      }
    }
  }

  lemma CountsKept(s: State, step: Step)
    requires Shape(s) && Counts(s) && Enabled(s, step)
    ensures Counts(Apply(s, step))
  {
  }

  lemma GoneGrows(d: seq<Departure>, e: seq<Departure>, i: nat)
    ensures Gone(d + e, i) <==> Gone(d, i) || Gone(e, i)
  {
    if Gone(d, i) {
      var k :| 0 <= k < |d| && d[k].stamp == i;
      assert (d + e)[k].stamp == i;
    }
    if Gone(e, i) {
      var k :| 0 <= k < |e| && e[k].stamp == i;
      assert (d + e)[|d| + k].stamp == i;
    }
    if Gone(d + e, i) {
      var k :| 0 <= k < |d + e| && (d + e)[k].stamp == i;
      if k < |d| {
        assert d[k].stamp == i;
      } else {
        assert e[k - |d|].stamp == i;
      }
    }
  }

  lemma LedgerAfterAdd(n: nat, stamps: seq<nat>, departed: seq<Departure>)
    requires LedgerOf(n, stamps, departed)
    ensures LedgerOf(n + 1, stamps + [n], departed)
  {
    forall i: nat | i < n + 1
      ensures i in stamps + [n] <==> i in stamps || i == n
    {
    }
  }

  lemma LedgerAfterTake(n: nat, stamps: seq<nat>, departed: seq<Departure>, k: nat, d: Departure)
    requires LedgerOf(n, stamps, departed) && Increasing(stamps) && k < |stamps| && d.stamp == stamps[k]
    ensures LedgerOf(n, RemoveAt(stamps, k), departed + [d])
  {
    assert !Gone(departed, d.stamp);
    forall i: nat | i < n
      ensures Gone(departed + [d], i) <==> i !in RemoveAt(stamps, k)
    {
      GoneGrows(departed, [d], i);
      assert Gone([d], i) <==> i == d.stamp by { assert [d][0] == d; }
      StampRemoved(stamps, k, i);
    }
  }

  lemma LedgerAfterDiscard(n: nat, stamps: seq<nat>, departed: seq<Departure>)
    requires LedgerOf(n, stamps, departed) && Increasing(stamps)
    ensures LedgerOf(n, [], departed + ClearedOf(stamps))
  {
    var e := ClearedOf(stamps);
    forall i: nat | i < n
      ensures Gone(departed + e, i)
    {
      GoneGrows(departed, e, i);
      if i in stamps {
        var k :| 0 <= k < |stamps| && stamps[k] == i;
        assert e[k].stamp == i;
      }
    }
    forall k, l | 0 <= k < l < |departed + e|
      ensures (departed + e)[k].stamp != (departed + e)[l].stamp
    {
      if k < |departed| <= l {
        assert Gone(departed, departed[k].stamp);
        assert (departed + e)[l].stamp == stamps[l - |departed|];
      }
    }
  }

  lemma LedgerKept(s: State, step: Step)
    requires Shape(s) && Ledger(s) && Enabled(s, step)
    ensures Ledger(Apply(s, step))
  {
    LedgerAfterAdd(|s.accepted|, s.stamps, s.departed);
    LedgerAfterDiscard(|s.accepted|, s.stamps, s.departed);
    if step.Evaluate? {
      var sel := s.threads[step.t].sel;
      var k := FirstMatch(s.q.items, sel);
      if k < |s.q.items| {
        LedgerAfterTake(|s.accepted|, s.stamps, s.departed, k, Taken(s.stamps[k], step.t, sel));
      }
    }
  }

  lemma StampRemoved(stamps: seq<nat>, k: nat, i: nat)
    requires k < |stamps| && Increasing(stamps)
    ensures i in RemoveAt(stamps, k) <==> i in stamps && i != stamps[k]
  {
    var r := RemoveAt(stamps, k);
    if i in stamps && i != stamps[k] {
      var j :| 0 <= j < |stamps| && stamps[j] == i;
      assert r[if j < k then j else j - 1] == i;
    }
    if i in r {
      var j :| 0 <= j < |r| && r[j] == i;
      RemovedAt(stamps, k, j);
    }
  }

  lemma FifoKept(s: State, step: Step)
    requires Shape(s) && Ledger(s) && Fifo(s) && Enabled(s, step)
    ensures Fifo(Apply(s, step))
  {
    var s' := Apply(s, step);
    forall k | 0 <= k < |s'.departed| && s'.departed[k].Taken?
      ensures FifoAt(s'.accepted, s'.departed, k)
    {
      if k < |s.departed| {
        assert FifoAt(s.accepted, s.departed, k);
        assert s'.departed[..k] == s.departed[..k];
      } else {
        NewestIsFirst(s, step);
        assert s'.departed[..k] == s.departed;
      }
    }
  }

  lemma NewestIsFirst(s: State, step: Step)
    requires Shape(s) && Ledger(s) && Enabled(s, step) && step.Evaluate?
    ensures var k := FirstMatch(s.q.items, s.threads[step.t].sel);
            k < |s.q.items| ==>
              forall i: nat :: i < s.stamps[k] && Matches(s.accepted[i], s.threads[step.t].sel) ==> Gone(s.departed, i)
  {
    var sel := s.threads[step.t].sel;
    var k := FirstMatch(s.q.items, sel);
    if k < |s.q.items| {
      forall i: nat | i < s.stamps[k] && Matches(s.accepted[i], sel)
        ensures Gone(s.departed, i)
      {
        assert forall j :: 0 <= j < |s.stamps| && s.stamps[j] == i ==> j < k;
      }
    }
  }

  // A thread still asleep after the step slept before it, and no notification has gone by.
  lemma StillAsleep(s: State, step: Step, t: Tid)
    requires Enabled(s, step) && IsAsleep(Apply(s, step), t) && !(step.Evaluate? && step.t == t)
    ensures IsAsleep(s, t) && Apply(s, step).threads[t] == s.threads[t]
    ensures !step.Notify? && !step.Stop?
    ensures NobodyNotifying(Apply(s, step)) ==> NobodyNotifying(s) && !step.Add?
  {
    var s' := Apply(s, step);
    if step.Add? {
      assert s'.threads[step.t] == Notifying;
    } else if !step.Notify? && !step.Stop? {
      assert forall u :: u in s.threads && s.threads[u] == Notifying ==> u in s'.threads && s'.threads[u] == Notifying;
    }
  }

  lemma AwakeKept(s: State, step: Step)
    requires Shape(s) && Awake(s) && Enabled(s, step)
    ensures Awake(Apply(s, step))
  {
    var s' := Apply(s, step);
    forall t | IsAsleep(s', t)
      ensures !s'.q.stopped
      ensures NobodyNotifying(s') ==> !HasMatch(s'.q, s'.threads[t].sel)
    {
      if step.Evaluate? && step.t == t {
        FoundIffMatch(s.q, s.threads[t].sel);
      } else {
        StillAsleep(s, step, t);
        if step.Evaluate? {
          FewerMatches(s.q, s.threads[step.t].sel, s.threads[t].sel);
        }
      }
    }
  }

  lemma FewerMatches(q: QState, taken: Selector, sel: Selector)
    ensures HasMatch(TakeFrom(q, taken), sel) ==> HasMatch(q, sel)
  {
  }

  lemma TookItGrows(d: seq<Departure>, e: seq<Departure>, stamp: nat, t: Tid, sel: Selector)
    ensures TookIt(d + e, stamp, t, sel) <==> TookIt(d, stamp, t, sel) || TookIt(e, stamp, t, sel)
  {
  }

  // A step that neither takes a message out nor returns one moves no message between hands.
  lemma HandsUnmoved(s: State, s': State, e: seq<Departure>)
    requires Hands(s)
    requires s'.departed == s.departed + e && (forall k :: 0 <= k < |e| ==> e[k].Cleared?)
    requires s'.returned == s.returned
    requires forall t :: t in s'.threads && s'.threads[t].Waiting? ==> s'.threads[t].msg == None
    requires forall stamp, t, sel :: InHand(s', stamp, t, sel) <==> InHand(s, stamp, t, sel)
    ensures Hands(s')
  {
    forall stamp, t, sel
      ensures TookIt(s'.departed, stamp, t, sel) <==> TookIt(s.departed, stamp, t, sel)
    {
      TookItGrows(s.departed, e, stamp, t, sel);
    }
    forall t | t in s'.threads && s'.threads[t].Returning? && s'.threads[t].msg.Some?
      ensures TookIt(s'.departed, s'.threads[t].msg.value, t, s'.threads[t].sel)
              && !WasReturned(s'.returned, s'.threads[t].msg.value)
    {
      assert InHand(s, s'.threads[t].msg.value, t, s'.threads[t].sel);
    }
  }

  lemma HandsAfterTake(s: State, step: Step)
    requires Shape(s) && Ledger(s) && Hands(s) && Enabled(s, step) && step.Evaluate?
    requires FirstMatch(s.q.items, s.threads[step.t].sel) < |s.q.items|
    ensures Hands(Apply(s, step))
  {
    var s' := Apply(s, step);
    var sel := s.threads[step.t].sel;
    var i := s.stamps[FirstMatch(s.q.items, sel)];
    var e := [Taken(i, step.t, sel)];
    assert !Gone(s.departed, i);
    forall stamp, t, sel'
      ensures TookIt(s'.departed, stamp, t, sel') <==> TookIt(s.departed, stamp, t, sel') || Taken(stamp, t, sel') == e[0]
    {
      TookItGrows(s.departed, e, stamp, t, sel');
    }
    forall k | 0 <= k < |s.returned|
      ensures s.returned[k].msg != Some(i)
    {
      if s.returned[k].msg == Some(i) {
        TookMeansGone(s.departed, i, s.returned[k].tid, s.returned[k].sel);
      }
    }
    forall stamp, t, sel' | TookIt(s'.departed, stamp, t, sel')
      ensures InHand(s', stamp, t, sel') || Return(t, sel', Some(stamp)) in s'.returned
    {
      if TookIt(s.departed, stamp, t, sel') {
        assert InHand(s, stamp, t, sel') || Return(t, sel', Some(stamp)) in s.returned;
      }
    }
  }

  lemma TookMeansGone(d: seq<Departure>, stamp: nat, t: Tid, sel: Selector)
    requires TookIt(d, stamp, t, sel)
    ensures Gone(d, stamp)
  {
    var k :| 0 <= k < |d| && d[k] == Taken(stamp, t, sel);
    assert d[k].stamp == stamp;
  }

  lemma TookByOne(d: seq<Departure>, stamp: nat, t: Tid, sel: Selector, t': Tid, sel': Selector)
    requires forall k, l :: 0 <= k < l < |d| ==> d[k].stamp != d[l].stamp
    requires TookIt(d, stamp, t, sel) && TookIt(d, stamp, t', sel')
    ensures t == t' && sel == sel'
  {
    var k :| 0 <= k < |d| && d[k] == Taken(stamp, t, sel);
    var l :| 0 <= l < |d| && d[l] == Taken(stamp, t', sel');
    assert d[k].stamp == d[l].stamp;
  }

  lemma HandsAfterReturn(s: State, step: Step)
    requires Ledger(s) && Hands(s) && Enabled(s, step) && step.ReturnGet?
    ensures Hands(Apply(s, step))
  {
    var s' := Apply(s, step);
    var r := Return(step.t, s.threads[step.t].sel, s.threads[step.t].msg);
    assert s'.returned == s.returned + [r];
    assert s'.returned[|s.returned|] == r;
    forall t | t in s'.threads && s'.threads[t].Returning? && s'.threads[t].msg.Some?
      ensures !WasReturned(s'.returned, s'.threads[t].msg.value)
    {
      var i := s'.threads[t].msg.value;
      assert s.threads[t] == s'.threads[t];
      if r.msg == Some(i) {
        TookByOne(s.departed, i, t, s.threads[t].sel, step.t, r.sel);
      }
    }
    forall stamp, t, sel | TookIt(s'.departed, stamp, t, sel)
      ensures InHand(s', stamp, t, sel) || Return(t, sel, Some(stamp)) in s'.returned
    {
      assert InHand(s, stamp, t, sel) || Return(t, sel, Some(stamp)) in s.returned;
    }
    forall k, l | 0 <= k < l < |s'.returned| && s'.returned[k].msg.Some?
      ensures s'.returned[k].msg != s'.returned[l].msg
    {
      if l == |s.returned| {
        assert r.msg.Some? ==> !WasReturned(s.returned, r.msg.value);
      }
    }
  }

  lemma HandsKept(s: State, step: Step)
    requires Shape(s) && Ledger(s) && Hands(s) && Enabled(s, step)
    ensures Hands(Apply(s, step))
  {
    if step.ReturnGet? {
      HandsAfterReturn(s, step);
    } else if step.Evaluate? && FirstMatch(s.q.items, s.threads[step.t].sel) < |s.q.items| {
      HandsAfterTake(s, step);
    } else {
      var e := Apply(s, step).departed[|s.departed|..];
      HandsUnmoved(s, Apply(s, step), e);
    }
  }

  lemma TimeoutsKept(s: State, step: Step)
    requires Timeouts(s) && Enabled(s, step)
    ensures Timeouts(Apply(s, step))
  {
  }

  lemma {:induction false} RunKeepsInv(maxSize: Int32, efdOpen: bool, steps: seq<Step>)
    requires Exec(Init(maxSize, efdOpen), steps).Some?
    ensures Inv(Exec(Init(maxSize, efdOpen), steps).value)
  {
    if steps != [] {
      RunKeepsInv(maxSize, efdOpen, steps[..|steps| - 1]);
      StepKeepsInv(Exec(Init(maxSize, efdOpen), steps[..|steps| - 1]).value, steps[|steps| - 1]);
    }
  }

  lemma StepKeepsInv(s: State, step: Step)
    requires Inv(s) && Enabled(s, step)
    ensures Inv(Apply(s, step))
  {
    ShapeKept(s, step);
    CountsKept(s, step);
    LedgerKept(s, step);
    FifoKept(s, step);
    AwakeKept(s, step);
    HandsKept(s, step);
    TimeoutsKept(s, step);
  }

  lemma ReachableInv(s: State)
    requires Reachable(s)
    ensures Inv(s)
  {
    var maxSize: Int32, efdOpen: bool, steps :| Exec(Init(maxSize, efdOpen), steps) == Some(s);
    RunKeepsInv(maxSize, efdOpen, steps);
  }

  lemma ReachableStep(s: State, step: Step)
    requires Reachable(s) && Enabled(s, step)
    ensures Reachable(Apply(s, step))
  {
    var maxSize: Int32, efdOpen: bool, steps :| Exec(Init(maxSize, efdOpen), steps) == Some(s);
    assert (steps + [step])[..|steps|] == steps;
    assert Exec(Init(maxSize, efdOpen), steps + [step]) == Some(Apply(s, step));
  }

  // ---------------------------------------------------------------- what every run guarantees

  /**
   * No lost wake-up: a sleeper nobody has notified may have a matching message in the queue only
   * while some add is between its unlock and its notify_all; and after stop nobody sleeps.
   */
  lemma NoLostWakeUp(s: State, t: Tid)
    requires Reachable(s) && IsAsleep(s, t)
    ensures !s.q.stopped
    ensures HasMatch(s.q, s.threads[t].sel) ==> exists u :: u in s.threads && s.threads[u] == Notifying
  {
    ReachableInv(s);
  }

  /** The pending notification reaches every sleeper, wherever it stands in the schedule. */
  lemma NotifyRousesAll(s: State, u: Tid, t: Tid)
    requires Reachable(s) && Enabled(s, Notify(u))
    ensures !IsAsleep(Apply(s, Notify(u)), t)
    ensures IsAsleep(s, t) ==> Enabled(Apply(s, Notify(u)), Evaluate(t))
  {
  }

  /** Once stop has run, a get of any kind comes back from its next predicate run, message or not. */
  lemma NoGetBlocksAfterStop(s: State, t: Tid)
    requires Reachable(s) && s.q.stopped && t in s.threads && s.threads[t].Waiting?
    ensures Enabled(s, Evaluate(t))
    ensures var s' := Apply(s, Evaluate(t));
            && s'.threads[t].Returning?
            && (s'.threads[t].msg.Some? <==> HasMatch(s.q, s.threads[t].sel))
  {
    ReachableInv(s);
    assert !IsAsleep(s, t);
    FoundIffMatch(s.q, s.threads[t].sel);
  }

  /**
   * Falling asleep takes a reason: only a predicate run does it, of a get that may wait and has not expired, in a
   * queue that is not stopped and holds nothing for it. A predicate run that ends otherwise ends the get, with a
   * message exactly when one matched.
   */
  lemma SleepsOnlyForAReason(s: State, step: Step, t: Tid)
    requires Enabled(s, step)
    ensures IsAsleep(Apply(s, step), t) && !IsAsleep(s, t) ==>
              && step == Evaluate(t) && !s.q.stopped && !HasMatch(s.q, s.threads[t].sel)
              && s.threads[t].mode != Immediate && s.threads[t].phase != Woken(true)
    ensures step == Evaluate(t) && !IsAsleep(Apply(s, step), t) ==>
              && Apply(s, step).threads[t].Returning?
              && (Apply(s, step).threads[t].msg.Some? <==> HasMatch(s.q, s.threads[t].sel))
    ensures step == Evaluate(t) && (s.q.stopped || s.threads[t].mode == Immediate || s.threads[t].phase == Woken(true)) ==>
              !IsAsleep(Apply(s, step), t)
  {
    if step.Evaluate? {
      FoundIffMatch(s.q, s.threads[step.t].sel);
    }
  }

  /**
   * What the condition variable may do to a sleeper: wake it at any moment for no reason, and when it is a timed one, wake
   * it because its time is up. Either lets it run its predicate; after a timeout, with which the get returns.
   */
  lemma SleepersMayWake(s: State, t: Tid)
    requires Reachable(s) && IsAsleep(s, t)
    ensures Enabled(s, WakeUp(t)) && Enabled(Apply(s, WakeUp(t)), Evaluate(t))
    ensures s.threads[t].mode == Timed <==> Enabled(s, Expire(t))
    ensures s.threads[t].mode == Timed ==>
              var s' := Apply(s, Expire(t));
              Enabled(s', Evaluate(t)) && Apply(s', Evaluate(t)).threads[t].Returning?
  {
    ReachableInv(s);
  }

  /**
   * A stop is for ever: whatever is called after it, the flag stays set and nobody sleeps, while messages are
   * still accepted.
   */
  lemma {:induction false} StopIsFinal(s: State, steps: seq<Step>)
    requires Reachable(s) && s.q.stopped && Exec(s, steps).Some?
    ensures var s' := Exec(s, steps).value;
            && Reachable(s') && s'.q.stopped && (forall t :: !IsAsleep(s', t))
            && forall t, m :: t !in s'.threads && Accepts(s'.q) && Enabled(s', Add(t, m)) ==>
                                Apply(s', Add(t, m)).q.items == s'.q.items + [m]
  {
    if steps != [] {
      var front := steps[..|steps| - 1];
      StopIsFinal(s, front);
      ReachableStep(Exec(s, front).value, steps[|steps| - 1]);
    }
    ReachableInv(Exec(s, steps).value);
  }

  /** The get this thread is in was called with this mode and this selector. */
  predicate InGet(s: State, t: Tid, mode: Mode, sel: Selector) {
    t in s.threads
    && match s.threads[t]
       case Waiting(sel', mode', _, _) => sel' == sel && mode' == mode
       case Returning(sel', _) => sel' == sel
       case Notifying => false
  }

  lemma StaysInGet(s: State, step: Step, t: Tid, mode: Mode, sel: Selector)
    requires Enabled(s, step) && InGet(s, t, mode, sel) && step != ReturnGet(t)
    ensures InGet(Apply(s, step), t, mode, sel)
  {
  }

  /**
   * A get keeps the mode and the selector it was called with through whatever happens until it returns, and then
   * returns for that selector.
   */
  lemma {:induction false} GetAsCalled(s: State, t: Tid, mode: Mode, sel: Selector, steps: seq<Step>)
    requires Reachable(s) && Enabled(s, CallGet(t, mode, sel)) && ReturnGet(t) !in steps
    requires Exec(Apply(s, CallGet(t, mode, sel)), steps).Some?
    ensures var s' := Exec(Apply(s, CallGet(t, mode, sel)), steps).value;
            && Reachable(s') && InGet(s', t, mode, sel)
            && (s'.threads[t].Returning? ==>
                  && Enabled(s', ReturnGet(t))
                  && var s'' := Apply(s', ReturnGet(t));
                     t !in s''.threads && s''.returned == s'.returned + [Return(t, sel, s'.threads[t].msg)])
  {
    if steps == [] {
      ReachableStep(s, CallGet(t, mode, sel));
    } else {
      var before := Exec(Apply(s, CallGet(t, mode, sel)), steps[..|steps| - 1]).value;
      GetAsCalled(s, t, mode, sel, steps[..|steps| - 1]);
      StaysInGet(before, steps[|steps| - 1], t, mode, sel);
      ReachableStep(before, steps[|steps| - 1]);
    }
    ReachableInv(Exec(Apply(s, CallGet(t, mode, sel)), steps).value);
  }

  /** A thread that is in none of the queue's calls may make any of them. */
  lemma FreeThreadMayCall(s: State, t: Tid, m: Received, mode: Mode, sel: Selector)
    requires Reachable(s) && t !in s.threads
    ensures Enabled(s, Add(t, m)) && Enabled(s, Clear(t)) && Enabled(s, Stop(t)) && Enabled(s, CallGet(t, mode, sel))
  {
    ReachableInv(s);
  }

  predicate ExactlyOne(a: bool, b: bool, c: bool, d: bool) {
    (a || b || c || d) && !(a && b) && !(a && c) && !(a && d) && !(b && c) && !(b && d) && !(c && d)
  }

  ghost predicate HeldBySome(s: State, i: nat) {
    exists t, sel :: InHand(s, i, t, sel)
  }

  // A message some get took is nowhere else, and on its way to that get's caller.
  lemma TakenIsHeldOrReturned(s: State, i: nat, t: Tid, sel: Selector)
    requires Ledger(s) && Fifo(s) && Hands(s) && i < |s.accepted| && TookIt(s.departed, i, t, sel)
    ensures i !in s.stamps && Cleared(i) !in s.departed && Matches(s.accepted[i], sel)
    ensures HeldBySome(s, i) || WasReturned(s.returned, i)
  {
    TookMeansGone(s.departed, i, t, sel);
    var k :| 0 <= k < |s.departed| && s.departed[k] == Taken(i, t, sel);
    assert FifoAt(s.accepted, s.departed, k);
    assert forall l :: 0 <= l < |s.departed| && l != k ==> s.departed[l].stamp != s.departed[k].stamp;
    assert InHand(s, i, t, sel) || Return(t, sel, Some(i)) in s.returned;
  }

  // A message that was thrown away is nowhere else.
  lemma ClearedIsGone(s: State, i: nat)
    requires Ledger(s) && i < |s.accepted| && Cleared(i) in s.departed
    ensures i !in s.stamps
  {
    var k :| 0 <= k < |s.departed| && s.departed[k] == Cleared(i);
    assert s.departed[k].stamp == i;
  }

  // A message that is not queued was taken or thrown away.
  lemma GoneSomehow(s: State, i: nat)
    requires Ledger(s) && i < |s.accepted| && i !in s.stamps
    ensures Cleared(i) in s.departed || exists t, sel :: TookIt(s.departed, i, t, sel)
  {
    var k :| 0 <= k < |s.departed| && s.departed[k].stamp == i;
    if s.departed[k].Taken? {
      assert TookIt(s.departed, i, s.departed[k].tid, s.departed[k].sel);
    }
  }

  /**
   * Conservation: at every moment each message ever accepted is in exactly one place: the queue,
   * the pile thrown away by clear or stop, the hand of one get that has not returned yet, or the
   * result of one get; and whoever returned it is the get that removed it.
   */
  lemma Conservation(s: State, i: nat)
    requires Reachable(s) && i < |s.accepted|
    ensures ExactlyOne(i in s.stamps, Cleared(i) in s.departed, HeldBySome(s, i), WasReturned(s.returned, i))
    ensures forall t, sel, t', sel' :: InHand(s, i, t, sel) && InHand(s, i, t', sel') ==> t == t'
    ensures forall k, l :: 0 <= k < l < |s.returned| && s.returned[k].msg == Some(i) ==> s.returned[l].msg != Some(i)
    ensures forall k :: 0 <= k < |s.returned| && s.returned[k].msg == Some(i) ==>
                TookIt(s.departed, i, s.returned[k].tid, s.returned[k].sel) && Matches(s.accepted[i], s.returned[k].sel)
  {
    ReachableInv(s);
    forall t, sel | TookIt(s.departed, i, t, sel)
      ensures i !in s.stamps && Cleared(i) !in s.departed && Matches(s.accepted[i], sel)
      ensures HeldBySome(s, i) || WasReturned(s.returned, i)
    {
      TakenIsHeldOrReturned(s, i, t, sel);
    }
    if i !in s.stamps {
      GoneSomehow(s, i);
    } else if Cleared(i) in s.departed {
      ClearedIsGone(s, i);
    }
    forall t, sel, t', sel' | InHand(s, i, t, sel) && InHand(s, i, t', sel')
      ensures t == t'
    {
      TookByOne(s.departed, i, t, sel, t', sel');
    }
  }

  /** Selective FIFO: an older message the same selector matches had already left. */
  lemma SelectiveFifo(s: State, k: nat, i: nat)
    requires Reachable(s) && k < |s.departed| && s.departed[k].Taken?
    requires i < s.departed[k].stamp && i < |s.accepted| && Matches(s.accepted[i], s.departed[k].sel)
    ensures exists j :: 0 <= j < k && s.departed[j].stamp == i
  {
    ReachableInv(s);
    assert FifoAt(s.accepted, s.departed, k);
    var j :| 0 <= j < |s.departed[..k]| && s.departed[..k][j].stamp == i;
    assert s.departed[j].stamp == i;
  }

  /** With one selector, messages leave in the order they were accepted, whatever other gets do. */
  lemma OneSelectorKeepsOrder(s: State, k: nat, l: nat)
    requires Reachable(s) && k < l < |s.departed| && s.departed[k].Taken? && s.departed[l].Taken?
    requires s.departed[k].sel == s.departed[l].sel
    ensures s.departed[k].stamp < s.departed[l].stamp
  {
    ReachableInv(s);
    assert FifoAt(s.accepted, s.departed, l);
    assert FifoAt(s.accepted, s.departed, k);
  }

  /** The queue never exceeds its bound, whether or not the eventfd could be created. */
  lemma NeverOverfull(s: State)
    requires Reachable(s)
    ensures |s.q.items| <= Limit(s.q.maxSize)
    ensures 0 <= s.q.maxSize ==> |s.q.items| <= s.q.maxSize
  {
    ReachableInv(s);
  }

  /** The poll descriptor is readable exactly when an immediate match-any get would succeed. */
  lemma PollTellsTheTruth(s: State)
    requires Reachable(s) && s.q.efdOpen && s.q.maxSize != -1
    ensures s.q.count == |s.q.items|
    ensures 0 < s.q.count <==> Found(s.q, ANY).Some?
  {
    ReachableInv(s);
    FoundIffMatch(s.q, ANY);
    if |s.q.items| > 0 {
      assert Matches(s.q.items[0], ANY);
    }
  }

  // ---------------------------------------------------------------- all gets with one selector

  /** Every get that removed a message used this selector. Clear and stop may have thrown others away. */
  ghost predicate OnlyTakenBy(s: State, sel: Selector) {
    forall k :: 0 <= k < |s.departed| && s.departed[k].Taken? ==> s.departed[k].sel == sel
  }

  ghost predicate NothingCleared(s: State) {
    forall k :: 0 <= k < |s.departed| ==> s.departed[k].Taken?
  }

  /** The messages that left the queue, in the order they left. */
  function Leavers(accepted: seq<Received>, departed: seq<Departure>): (r: seq<Received>)
    requires forall k :: 0 <= k < |departed| ==> departed[k].stamp < |accepted|
    ensures |r| == |departed|
    ensures forall k :: 0 <= k < |r| ==> r[k] == accepted[departed[k].stamp]
  {
    seq(|departed|, k requires 0 <= k < |departed| => accepted[departed[k].stamp])
  }

  /** Of what a selector matches, what left followed by what is queued is what was accepted, in order. */
  ghost predicate InOrder(s: State, sel: Selector)
    requires Ledger(s)
  {
    Chosen(Leavers(s.accepted, s.departed), sel) + Chosen(s.q.items, sel) == Chosen(s.accepted, sel)
  }

  lemma InOrderAfterAdd(s: State, step: Step, sel: Selector)
    requires Ledger(s) && InOrder(s, sel) && Enabled(s, step) && step.Add?
    ensures Ledger(Apply(s, step)) ==> InOrder(Apply(s, step), sel)
  {
    var s' := Apply(s, step);
    if Ledger(s') && Accepts(s.q) {
      assert Leavers(s'.accepted, s'.departed) == Leavers(s.accepted, s.departed);
      ChosenConcat(s.accepted, [step.m], sel);
      ChosenConcat(s.q.items, [step.m], sel);
    }
  }

  // The first message a selector matches is the first of those it matches.
  lemma FirstIsChosenFirst(items: seq<Received>, k: nat, sel: Selector)
    requires k < |items| && (forall j :: 0 <= j < k ==> !Matches(items[j], sel))
    ensures Chosen(items, sel) == Chosen([items[k]], sel) + Chosen(RemoveAt(items, k), sel)
  {
    ChosenNone(items[..k], sel);
    ChosenWithout(items[..k], [items[k]], items[k + 1..], sel);
    assert items == items[..k] + ([items[k]] + items[k + 1..]);
  }

  lemma InOrderAfterTake(s: State, t: Tid)
    requires Shape(s) && Ledger(s) && Enabled(s, Evaluate(t)) && InOrder(s, s.threads[t].sel)
    requires FirstMatch(s.q.items, s.threads[t].sel) < |s.q.items|
    ensures var s' := Apply(s, Evaluate(t)); Ledger(s') ==> InOrder(s', s.threads[t].sel)
  {
    var s', sel := Apply(s, Evaluate(t)), s.threads[t].sel;
    var k := FirstMatch(s.q.items, sel);
    var left := Leavers(s.accepted, s.departed);
    if Ledger(s') {
      assert Leavers(s'.accepted, s'.departed) == left + [s.q.items[k]];
      FirstIsChosenFirst(s.q.items, k, sel);
      ChosenMoved(left, [s.q.items[k]], s.q.items, RemoveAt(s.q.items, k), sel);
    }
  }

  lemma InOrderAfterDiscard(s: State, step: Step, sel: Selector)
    requires Shape(s) && Ledger(s) && InOrder(s, sel) && Enabled(s, step) && (step.Clear? || step.Stop?)
    ensures Ledger(Apply(s, step)) ==> InOrder(Apply(s, step), sel)
  {
    var s' := Apply(s, step);
    var left := Leavers(s.accepted, s.departed);
    if Ledger(s') {
      assert Leavers(s'.accepted, s'.departed) == left + s.q.items;
      ChosenConcat(left, s.q.items, sel);
    }
  }

  lemma InOrderKept(s: State, step: Step, sel: Selector)
    requires Shape(s) && Ledger(s) && InOrder(s, sel) && Enabled(s, step) && OnlyTakenBy(Apply(s, step), sel)
    ensures Ledger(Apply(s, step)) && InOrder(Apply(s, step), sel)
  {
    var s' := Apply(s, step);
    LedgerKept(s, step);
    match step
    case Add(_, _) => InOrderAfterAdd(s, step, sel);
    case Clear(_) => InOrderAfterDiscard(s, step, sel);
    case Stop(_) => InOrderAfterDiscard(s, step, sel);
    case Evaluate(t) =>
      if FirstMatch(s.q.items, s.threads[t].sel) < |s.q.items| {
        assert s'.departed[|s.departed|].sel == s.threads[t].sel;
        InOrderAfterTake(s, t);
      }
    case _ =>
  }

  lemma DepartedGrows(s: State, step: Step)
    requires Enabled(s, step)
    ensures s.departed <= Apply(s, step).departed
  {
  }

  lemma {:induction false} RunKeepsOrder(maxSize: Int32, efdOpen: bool, steps: seq<Step>, sel: Selector)
    requires Exec(Init(maxSize, efdOpen), steps).Some? && OnlyTakenBy(Exec(Init(maxSize, efdOpen), steps).value, sel)
    ensures var s := Exec(Init(maxSize, efdOpen), steps).value; Ledger(s) && InOrder(s, sel)
  {
    if steps != [] {
      var front, step := steps[..|steps| - 1], steps[|steps| - 1];
      var before := Exec(Init(maxSize, efdOpen), front).value;
      DepartedGrows(before, step);
      RunKeepsOrder(maxSize, efdOpen, front, sel);
      RunKeepsInv(maxSize, efdOpen, front);
      InOrderKept(before, step, sel);
    }
  }

  /**
   * If all gets that took something used one selector, then of the messages it matches those that left, followed by
   * those still queued, are the accepted ones, in order. If nothing was thrown away, those that left are deliveries.
   */
  lemma OneSelectorLosesNothing(s: State, sel: Selector)
    requires Reachable(s) && OnlyTakenBy(s, sel)
    ensures Ledger(s)
    ensures Chosen(Leavers(s.accepted, s.departed), sel) + Chosen(s.q.items, sel) == Chosen(s.accepted, sel)
    ensures NothingCleared(s) ==> Leavers(s.accepted, s.departed) + Chosen(s.q.items, sel) == Chosen(s.accepted, sel)
  {
    var maxSize: Int32, efdOpen: bool, steps :| Exec(Init(maxSize, efdOpen), steps) == Some(s);
    RunKeepsOrder(maxSize, efdOpen, steps, sel);
    if NothingCleared(s) {
      ReachableInv(s);
      forall k | 0 <= k < |s.departed|
        ensures Matches(s.accepted[s.departed[k].stamp], sel)
      {
        assert FifoAt(s.accepted, s.departed, k);
      }
      ChosenAll(Leavers(s.accepted, s.departed), sel);
    }
  }

  /** With match-any gets that is everything: what left followed by what is queued is what was accepted. */
  lemma AnyDeliversAccepted(s: State)
    requires Reachable(s) && OnlyTakenBy(s, ANY)
    ensures Ledger(s) && Leavers(s.accepted, s.departed) + s.q.items == s.accepted
  {
    OneSelectorLosesNothing(s, ANY);
    ChosenAny(Leavers(s.accepted, s.departed));
    ChosenAny(s.q.items);
    ChosenAny(s.accepted);
  }

  // ---------------------------------------------------------------- what one thread's gets return

  /** What a thread's gets took, in the order they took it. */
  function TakenBy(departed: seq<Departure>, t: Tid): seq<nat> {
    if departed == [] then [] else
      var rest := TakenBy(departed[..|departed| - 1], t);
      var d := departed[|departed| - 1];
      if d.Taken? && d.tid == t then rest + [d.stamp] else rest
  }

  /** What they returned, in the order they returned it; empty-handed returns are left out. */
  function ReturnedBy(returned: seq<Return>, t: Tid): seq<nat> {
    if returned == [] then [] else
      var rest := ReturnedBy(returned[..|returned| - 1], t);
      var r := returned[|returned| - 1];
      if r.tid == t && r.msg.Some? then rest + [r.msg.value] else rest
  }

  /** What the thread's get has taken and not returned yet. */
  function HandOf(threads: map<Tid, PC>, t: Tid): seq<nat> {
    if t in threads && threads[t].Returning? && threads[t].msg.Some? then [threads[t].msg.value] else []
  }

  ghost predicate ReturnsInOrder(s: State, t: Tid) {
    TakenBy(s.departed, t) == ReturnedBy(s.returned, t) + HandOf(s.threads, t)
  }

  lemma {:induction false} ClearingTakesNothing(departed: seq<Departure>, stamps: seq<nat>, t: Tid)
    ensures TakenBy(departed + ClearedOf(stamps), t) == TakenBy(departed, t)
  {
    if stamps == [] {
      assert departed + ClearedOf(stamps) == departed;
    } else {
      var front := stamps[..|stamps| - 1];
      ClearingTakesNothing(departed, front, t);
      assert departed + ClearedOf(stamps) == (departed + ClearedOf(front)) + [Cleared(stamps[|stamps| - 1])];
    }
  }

  lemma TakenSnoc(departed: seq<Departure>, d: Departure, t: Tid)
    ensures TakenBy(departed + [d], t) == TakenBy(departed, t) + if d.Taken? && d.tid == t then [d.stamp] else []
  {
    assert (departed + [d])[..|departed|] == departed;
  }

  lemma ReturnedSnoc(returned: seq<Return>, r: Return, t: Tid)
    ensures ReturnedBy(returned + [r], t) == ReturnedBy(returned, t) + if r.tid == t && r.msg.Some? then [r.msg.value] else []
  {
    assert (returned + [r])[..|returned|] == returned;
  }

  // A step that neither takes a message nor returns changes nobody's hand.
  lemma HandUnmoved(s: State, step: Step, t: Tid)
    requires Enabled(s, step) && !step.ReturnGet?
    requires step.Evaluate? ==> |s.q.items| <= FirstMatch(s.q.items, s.threads[step.t].sel)
    ensures HandOf(Apply(s, step).threads, t) == HandOf(s.threads, t) && Apply(s, step).returned == s.returned
    ensures Apply(s, step).departed == s.departed + if step.Clear? || step.Stop? then ClearedOf(s.stamps) else []
  {
  }

  lemma ReturnsAfterReturn(s: State, u: Tid, t: Tid)
    requires ReturnsInOrder(s, t) && Enabled(s, ReturnGet(u))
    ensures ReturnsInOrder(Apply(s, ReturnGet(u)), t)
  {
    ReturnedSnoc(s.returned, Return(u, s.threads[u].sel, s.threads[u].msg), t);
  }

  lemma HandAfterTake(departed: seq<Departure>, given: seq<nat>, threads: map<Tid, PC>, u: Tid, i: nat, sel: Selector, t: Tid)
    requires TakenBy(departed, t) == given + HandOf(threads, t) && u in threads && threads[u].Waiting?
    ensures TakenBy(departed + [Taken(i, u, sel)], t) == given + HandOf(threads[u := Returning(sel, Some(i))], t)
  {
    TakenSnoc(departed, Taken(i, u, sel), t);
  }

  lemma ReturnsAfterTake(s: State, u: Tid, t: Tid)
    requires ReturnsInOrder(s, t) && Enabled(s, Evaluate(u)) && FirstMatch(s.q.items, s.threads[u].sel) < |s.q.items|
    ensures ReturnsInOrder(Apply(s, Evaluate(u)), t)
  {
    var sel := s.threads[u].sel;
    HandAfterTake(s.departed, ReturnedBy(s.returned, t), s.threads, u, s.stamps[FirstMatch(s.q.items, sel)], sel, t);
  }

  lemma ReturnsInOrderKept(s: State, step: Step, t: Tid)
    requires ReturnsInOrder(s, t) && Enabled(s, step)
    ensures ReturnsInOrder(Apply(s, step), t)
  {
    if step.ReturnGet? {
      ReturnsAfterReturn(s, step.t, t);
    } else if step.Evaluate? && FirstMatch(s.q.items, s.threads[step.t].sel) < |s.q.items| {
      ReturnsAfterTake(s, step.t, t);
    } else {
      HandUnmoved(s, step, t);
      ClearingTakesNothing(s.departed, s.stamps, t);
      assert s.departed + [] == s.departed;
    }
  }

  lemma {:induction false} RunKeepsReturns(maxSize: Int32, efdOpen: bool, steps: seq<Step>, t: Tid)
    requires Exec(Init(maxSize, efdOpen), steps).Some?
    ensures ReturnsInOrder(Exec(Init(maxSize, efdOpen), steps).value, t)
  {
    if steps != [] {
      RunKeepsReturns(maxSize, efdOpen, steps[..|steps| - 1], t);
      ReturnsInOrderKept(Exec(Init(maxSize, efdOpen), steps[..|steps| - 1]).value, steps[|steps| - 1], t);
    }
  }

  /** Each thread is given its messages in the order its gets took them, the last of them perhaps still in hand. */
  lemma ReturnedAsTaken(s: State, t: Tid)
    requires Reachable(s)
    ensures TakenBy(s.departed, t) == ReturnedBy(s.returned, t) + HandOf(s.threads, t)
  {
    var maxSize: Int32, efdOpen: bool, steps :| Exec(Init(maxSize, efdOpen), steps) == Some(s);
    RunKeepsReturns(maxSize, efdOpen, steps, t);
  }

  /** The messages some stamps name. */
  function Named(accepted: seq<Received>, stamps: seq<nat>): (r: seq<Received>)
    requires forall i :: 0 <= i < |stamps| ==> stamps[i] < |accepted|
    ensures |r| == |stamps| && forall i :: 0 <= i < |r| ==> r[i] == accepted[stamps[i]]
  {
    seq(|stamps|, i requires 0 <= i < |stamps| => accepted[stamps[i]])
  }

  /** All that left the queue was taken by one thread. */
  ghost predicate OneConsumer(s: State, t: Tid) {
    forall k :: 0 <= k < |s.departed| ==> s.departed[k].Taken? && s.departed[k].tid == t
  }

  lemma {:induction false} TakenByAll(departed: seq<Departure>, t: Tid)
    requires forall k :: 0 <= k < |departed| ==> departed[k].Taken? && departed[k].tid == t
    ensures |TakenBy(departed, t)| == |departed|
    ensures forall k :: 0 <= k < |departed| ==> TakenBy(departed, t)[k] == departed[k].stamp
  {
    if departed != [] {
      TakenByAll(departed[..|departed| - 1], t);
    }
  }

  lemma LeaversNamed(accepted: seq<Received>, departed: seq<Departure>, t: Tid, first: seq<nat>, rest: seq<nat>)
    requires forall k :: 0 <= k < |departed| ==> departed[k].Taken? && departed[k].tid == t && departed[k].stamp < |accepted|
    requires TakenBy(departed, t) == first + rest
    ensures forall i :: 0 <= i < |first| ==> first[i] < |accepted|
    ensures forall i :: 0 <= i < |rest| ==> rest[i] < |accepted|
    ensures Leavers(accepted, departed) == Named(accepted, first) + Named(accepted, rest)
  {
    TakenByAll(departed, t);
    assert forall i :: 0 <= i < |first| ==> first[i] == TakenBy(departed, t)[i];
    assert forall i :: 0 <= i < |rest| ==> rest[i] == TakenBy(departed, t)[|first| + i];
  }

  /** A single consumer was given what left the queue, in that order, but for a message it still has in hand. */
  lemma ConsumerIsGivenAll(s: State, t: Tid)
    requires Reachable(s) && OneConsumer(s, t)
    ensures Ledger(s)
    ensures var given, inHand := ReturnedBy(s.returned, t), HandOf(s.threads, t);
            && (forall i :: 0 <= i < |given| ==> given[i] < |s.accepted|)
            && (forall i :: 0 <= i < |inHand| ==> inHand[i] < |s.accepted|)
            && Leavers(s.accepted, s.departed) == Named(s.accepted, given) + Named(s.accepted, inHand)
  {
    ReachableInv(s);
    ReturnedAsTaken(s, t);
    LeaversNamed(s.accepted, s.departed, t, ReturnedBy(s.returned, t), HandOf(s.threads, t));
  }
}
