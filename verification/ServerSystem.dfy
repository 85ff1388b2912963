/**
 * The threaded server at work: worker threads feeding the queue from the socket, any number of
 * application threads in receive, and one thread calling start and stop.
 */
module ServerSystem {
  import opened Wrappers
  import opened Identifiers
  import opened Messages
  import opened QueueSpec
  import Q = QueueSystem

  /**
   * Where a worker is in its loop. `Receiving(true)` began while the socket was still open; such a receive ends too
   * once the socket is closed, because shutting the socket down wakes the poll it waits in.
   */
  datatype WorkerPC = AtTop | Receiving(open: bool) | Holding(m: Received) | Adding | Ended

  /** Where the controlling thread is: between calls, or in stop with the socket closed or the queue stopped. */
  datatype Control = Ready | Closing | Joining

  /** A message the worker handed to the queue, and how long the queue was at that moment. */
  datatype Offer = Offer(m: Received, taken: bool, queued: nat)

  datatype State = State(
    sys: Q.State,
    workers: seq<WorkerPC>,       // every worker ever started, by number
    handle: Option<nat>,          // the joinable thread handle
    open: bool,                   // the socket
    control: Control,
    stops: nat,                   // how many stop calls that had something to stop have returned
    trace: seq<Event>,            // socket events the workers have dealt with, in order
    replies: seq<Identifier>,     // whom a PING_RSP was sent to, in order
    offers: seq<Offer>,
    late: Option<Received>)       // the message a worker had in hand when the socket closed, if any

  datatype Step =
    | Start
    | StopCall
    | StopQueueNow
    | StopJoin
    | BeginReceive(w: nat)
    | EndReceive(w: nat, e: Event)
    | Handle(w: nat)
    | NotifyAdded(w: nat)
    | AppStep(step: Q.Step)

  function Init(maxSize: Int32, efdOpen: bool): State {
    State(Q.Init(maxSize, efdOpen), [], None, true, Ready, 0, [], [], [], None)
  }

  // Application threads only ever call get.
  predicate IsGetStep(step: Q.Step) {
    (step.CallGet? || step.Evaluate? || step.WakeUp? || step.Expire? || step.ReturnGet?) && step.t.App?
  }

  predicate IsAt(s: State, w: nat, pc: WorkerPC) {
    w < |s.workers| && s.workers[w] == pc
  }

  predicate Enabled(s: State, step: Step) {
    match step
    case Start => s.control == Ready
    case StopCall => s.control == Ready
    case StopQueueNow => s.control == Closing && Q.Enabled(s.sys, Q.Stop(Q.Controller))
    case StopJoin => s.control == Joining && s.handle.Some? && IsAt(s, s.handle.value, Ended)
    case BeginReceive(w) => IsAt(s, w, AtTop)
    case EndReceive(w, e) => w < |s.workers| && s.workers[w].Receiving? && (e.Msg? ==> s.workers[w].open)
    case Handle(w) =>
      w < |s.workers| && s.workers[w].Holding?
      && (IsPing(s.workers[w].m) || Q.Enabled(s.sys, Q.Add(Q.Worker(w), s.workers[w].m)))
    case NotifyAdded(w) => IsAt(s, w, Adding) && Q.Enabled(s.sys, Q.Notify(Q.Worker(w)))
    case AppStep(step) => IsGetStep(step) && Q.Enabled(s.sys, step)
  }

  function HeldBy(pc: WorkerPC): Option<Received> {
    if pc.Holding? then Some(pc.m) else None
  }

  function Apply(s: State, step: Step): State
    requires Enabled(s, step)
  {
    match step
    case Start =>
      if s.handle.Some? then s
      else s.(workers := s.workers + [AtTop], handle := Some(|s.workers|))
    case StopCall =>
      if s.handle.None? then s
      else if !s.open || |s.workers| <= s.handle.value then s.(open := false, control := Closing)
      else s.(open := false, control := Closing, late := HeldBy(s.workers[s.handle.value]))
    case StopQueueNow => s.(sys := Q.Apply(s.sys, Q.Stop(Q.Controller)), control := Joining)
    case StopJoin => s.(handle := None, control := Ready, stops := s.stops + 1)
    case BeginReceive(w) => s.(workers := s.workers[w := Receiving(s.open)])
    case EndReceive(w, e) =>
      if e.Fail? then s.(workers := s.workers[w := Ended], trace := s.trace + [e])
      else s.(workers := s.workers[w := Holding(e.m)], late := if s.open then s.late else Some(e.m))
    case Handle(w) =>
      var m := s.workers[w].m;
      if IsPing(m) then
        s.(workers := s.workers[w := AtTop], trace := s.trace + [Msg(m)], replies := s.replies + [m.from])
      else
        s.(sys := Q.Apply(s.sys, Q.Add(Q.Worker(w), m)), workers := s.workers[w := Adding],
           trace := s.trace + [Msg(m)],
           offers := s.offers + [Offer(m, Accepts(s.sys.q), |s.sys.q.items|)])
    case NotifyAdded(w) => s.(sys := Q.Apply(s.sys, Q.Notify(Q.Worker(w))), workers := s.workers[w := AtTop])
    case AppStep(step) => s.(sys := Q.Apply(s.sys, step))
  }

  function Exec(s: State, steps: seq<Step>): Option<State> {
    if steps == [] then Some(s) else
      var before := Exec(s, steps[..|steps| - 1]);
      var step := steps[|steps| - 1];
      if before.Some? && Enabled(before.value, step) then Some(Apply(before.value, step)) else None
  }

  ghost predicate Reachable(s: State) {
    exists maxSize: Int32, efdOpen: bool, steps: seq<Step> :: Exec(Init(maxSize, efdOpen), steps) == Some(s)
  }

  // ---------------------------------------------------------------- invariants

  /** One live worker at most, the one the handle names, and nobody else adds to the queue. */
  ghost predicate Life(s: State) {
    && (forall w :: 0 <= w < |s.workers| && s.workers[w] != Ended ==> s.handle == Some(w))
    && (s.handle.Some? ==> s.handle.value < |s.workers|)
    && (s.control != Ready ==> s.handle.Some? && !s.open)
    && (s.control == Joining || s.stops > 0 ==> s.sys.q.stopped)
    && (s.sys.q.stopped ==> !s.open && (s.control == Joining || s.stops > 0))
    && (!s.open ==> s.control != Ready || s.stops > 0)
    && (s.sys.q.stopped || s.handle.Some? ==> |s.workers| > 0)
  }

  ghost predicate Threads(s: State) {
    && Q.Controller !in s.sys.threads
    && (forall w: nat :: Q.Worker(w) in s.sys.threads <==> IsAt(s, w, Adding))
    && (forall w: nat :: Q.Worker(w) in s.sys.threads ==> s.sys.threads[Q.Worker(w)] == Q.Notifying)
    && (forall n: nat :: Q.App(n) in s.sys.threads ==> s.sys.threads[Q.App(n)] != Q.Notifying)
  }

  predicate MayStillAdd(pc: WorkerPC) {
    pc == Receiving(true) || pc.Holding?
  }

  /** After the socket closes only the message in hand can come in, and after stop it is all there can be. */
  ghost predicate Shutdown(s: State) {
    && (s.open ==> s.late.None?)
    && (!s.open ==> forall w :: 0 <= w < |s.workers| ==> InHandIsLate(s, s.workers[w]))
    && (s.sys.q.stopped ==> s.sys.q.items == [] || (s.late.Some? && s.sys.q.items == [s.late.value]))
    && (s.stops > 0 ==> forall w :: 0 <= w < |s.workers| ==> !MayStillAdd(s.workers[w]) && s.workers[w] != Adding)
  }

  predicate InHandIsLate(s: State, pc: WorkerPC) {
    && (pc == Receiving(true) ==> s.late.None?)
    && (pc.Holding? ==> s.late == Some(pc.m))
    && (MayStillAdd(pc) && s.sys.q.stopped ==> s.sys.q.items == [])
  }

  function TakenOf(offers: seq<Offer>): seq<Received> {
    if offers == [] then [] else
      var rest := TakenOf(offers[..|offers| - 1]);
      var o := offers[|offers| - 1];
      if o.taken then rest + [o.m] else rest
  }

  function OfferedOf(offers: seq<Offer>): (r: seq<Received>)
    ensures |r| == |offers|
    ensures forall i :: 0 <= i < |r| ==> r[i] == offers[i].m
  {
    seq(|offers|, i requires 0 <= i < |offers| => offers[i].m)
  }

  /** An offer is refused when the queue is exactly full, and never otherwise. */
  predicate Honest(o: Offer, limit: nat) {
    !IsPing(o.m) && o.queued <= limit && (o.taken <==> o.queued < limit)
  }

  ghost predicate BooksOf(trace: seq<Event>, replies: seq<Identifier>, offers: seq<Offer>, accepted: seq<Received>, limit: nat) {
    && replies == PingSenders(trace)
    && OfferedOf(offers) == NonPing(trace)
    && accepted == TakenOf(offers)
    && (forall i :: 0 <= i < |offers| ==> Honest(offers[i], limit))
    && (forall i :: 0 <= i < |accepted| ==> !IsPing(accepted[i]))
  }

  /** What came off the socket was answered, queued, or dropped for want of room. */
  ghost predicate Books(s: State) {
    BooksOf(s.trace, s.replies, s.offers, s.sys.accepted, Limit(s.sys.q.maxSize))
  }

  predicate HasFailed(trace: seq<Event>) {
    trace != [] && trace[|trace| - 1].Fail?
  }

  /** Until a stop begins there is one worker; and once a receive has failed, no worker can take up a message again. */
  ghost predicate OneStretch(s: State) {
    && (s.open ==> |s.workers| <= 1 && (s.handle.None? ==> s.workers == []))
    && FailuresLast(s.trace)
    && (HasFailed(s.trace) ==>
          && s.workers != []
          && forall w :: 0 <= w < |s.workers| ==> !MayStillAdd(s.workers[w]) && (s.open ==> s.workers[w] == Ended))
  }

  ghost predicate Inv(s: State) {
    Q.Inv(s.sys) && Life(s) && Threads(s) && Shutdown(s) && Books(s) && OneStretch(s)
  }

  // The queue step a server step makes, if any.
  function QueueStep(s: State, step: Step): Option<Q.Step>
    requires Enabled(s, step)
  {
    match step
    case StopQueueNow => Some(Q.Stop(Q.Controller))
    case Handle(w) => if IsPing(s.workers[w].m) then None else Some(Q.Add(Q.Worker(w), s.workers[w].m))
    case NotifyAdded(w) => Some(Q.Notify(Q.Worker(w)))
    case AppStep(step) => Some(step)
    case _ => None
  }

  lemma QueueInvKept(s: State, step: Step)
    requires Q.Inv(s.sys) && Enabled(s, step)
    ensures Q.Inv(Apply(s, step).sys)
  {
    var q := QueueStep(s, step);
    if q.Some? {
      Q.StepKeepsInv(s.sys, q.value);
    }
  }

  lemma LifeKept(s: State, step: Step)
    requires Life(s) && Enabled(s, step)
    ensures Life(Apply(s, step))
  {
  }

  // A get by an application thread touches no other thread and never leaves one notifying.
  lemma GetStepThreads(s: Q.State, step: Q.Step, t: Q.Tid)
    requires Q.Enabled(s, step) && IsGetStep(step)
    ensures var s' := Q.Apply(s, step);
            && (t != step.t ==> (t in s'.threads <==> t in s.threads) && (t in s.threads ==> s'.threads[t] == s.threads[t]))
            && (step.t in s'.threads ==> s'.threads[step.t] != Q.Notifying)
  {
  }

  lemma ThreadsAfterGet(s: State, step: Step)
    requires Life(s) && Threads(s) && Enabled(s, step) && step.AppStep?
    ensures Threads(Apply(s, step))
  {
    forall t
      ensures var s' := Q.Apply(s.sys, step.step);
              && (t != step.step.t ==> (t in s'.threads <==> t in s.sys.threads)
                                       && (t in s.sys.threads ==> s'.threads[t] == s.sys.threads[t]))
              && (step.step.t in s'.threads ==> s'.threads[step.step.t] != Q.Notifying)
    {
      GetStepThreads(s.sys, step.step, t);
    }
  }

  lemma ThreadsKept(s: State, step: Step)
    requires Life(s) && Threads(s) && Enabled(s, step)
    ensures Threads(Apply(s, step))
  {
    if step.AppStep? {
      ThreadsAfterGet(s, step);
    }
  }

  lemma ShutdownAfterHandle(s: State, step: Step)
    requires Life(s) && Shutdown(s) && Enabled(s, step) && step.Handle?
    ensures Shutdown(Apply(s, step))
  {
  }

  lemma ShutdownAfterReceive(s: State, step: Step)
    requires Life(s) && Shutdown(s) && Enabled(s, step) && (step.BeginReceive? || step.EndReceive?)
    ensures Shutdown(Apply(s, step))
  {
  }

  // A consumer never lengthens the queue, and what it leaves of one message is that message or nothing.
  lemma GetStepOnlyRemoves(s: Q.State, step: Q.Step)
    requires Q.Enabled(s, step) && IsGetStep(step)
    ensures var q' := Q.Apply(s, step).q;
            && |q'.items| <= |s.q.items| && q'.stopped == s.q.stopped
            && (|s.q.items| <= 1 ==> q'.items == s.q.items || q'.items == [])
  {
  }

  lemma ShutdownKept(s: State, step: Step)
    requires Life(s) && Threads(s) && Shutdown(s) && Enabled(s, step)
    ensures Shutdown(Apply(s, step))
  {
    if step.Handle? {
      ShutdownAfterHandle(s, step);
    } else if step.BeginReceive? || step.EndReceive? {
      ShutdownAfterReceive(s, step);
    } else if step.AppStep? {
      GetStepOnlyRemoves(s.sys, step.step);
    }
  }

  lemma OfferSnoc(offers: seq<Offer>, o: Offer)
    ensures OfferedOf(offers + [o]) == OfferedOf(offers) + [o.m]
    ensures TakenOf(offers + [o]) == TakenOf(offers) + (if o.taken then [o.m] else [])
  {
    assert (offers + [o])[..|offers|] == offers;
  }

  lemma BooksPlusPing(trace: seq<Event>, replies: seq<Identifier>, offers: seq<Offer>, accepted: seq<Received>, limit: nat, m: Received)
    requires BooksOf(trace, replies, offers, accepted, limit) && IsPing(m)
    ensures BooksOf(trace + [Msg(m)], replies + [m.from], offers, accepted, limit)
  {
    TraceSnoc(trace, Msg(m));
  }

  lemma BooksPlusFailure(trace: seq<Event>, replies: seq<Identifier>, offers: seq<Offer>, accepted: seq<Received>, limit: nat, e: Event)
    requires BooksOf(trace, replies, offers, accepted, limit) && e.Fail?
    ensures BooksOf(trace + [e], replies, offers, accepted, limit)
  {
    TraceSnoc(trace, e);
  }

  lemma BooksPlusOffer(trace: seq<Event>, replies: seq<Identifier>, offers: seq<Offer>, accepted: seq<Received>, limit: nat, o: Offer)
    requires BooksOf(trace, replies, offers, accepted, limit) && Honest(o, limit)
    ensures BooksOf(trace + [Msg(o.m)], replies, offers + [o], accepted + (if o.taken then [o.m] else []), limit)
  {
    TraceSnoc(trace, Msg(o.m));
    OfferSnoc(offers, o);
  }

  // What adding to the queue does to the part of it the books mention.
  lemma AddToQueue(s: Q.State, w: nat, m: Received)
    requires Q.Enabled(s, Q.Add(Q.Worker(w), m))
    ensures var s' := Q.Apply(s, Q.Add(Q.Worker(w), m));
            && s'.accepted == s.accepted + (if Accepts(s.q) then [m] else [])
            && s'.q.maxSize == s.q.maxSize
  {
  }

  // Only handling a message or an error adds to the books.
  lemma BooksUntouched(s: State, step: Step)
    requires Enabled(s, step) && !step.Handle? && !step.EndReceive?
    ensures var s' := Apply(s, step);
            && s'.trace == s.trace && s'.replies == s.replies && s'.offers == s.offers
            && s'.sys.accepted == s.sys.accepted && s'.sys.q.maxSize == s.sys.q.maxSize
  {
  }

  lemma BooksKept(s: State, step: Step)
    requires Books(s) && Bounded(s.sys.q) && Enabled(s, step)
    ensures Books(Apply(s, step))
  {
    var limit := Limit(s.sys.q.maxSize);
    if step.Handle? {
      var m := s.workers[step.w].m;
      if IsPing(m) {
        BooksPlusPing(s.trace, s.replies, s.offers, s.sys.accepted, limit, m);
      } else {
        AddToQueue(s.sys, step.w, m);
        BooksPlusOffer(s.trace, s.replies, s.offers, s.sys.accepted, limit, Offer(m, Accepts(s.sys.q), |s.sys.q.items|));
      }
    } else if step.EndReceive? {
      if step.e.Fail? {
        BooksPlusFailure(s.trace, s.replies, s.offers, s.sys.accepted, limit, step.e);
      }
    } else {
      BooksUntouched(s, step);
    }
  }

  lemma OneStretchKept(s: State, step: Step)
    requires Life(s) && OneStretch(s) && Enabled(s, step)
    ensures OneStretch(Apply(s, step))
  {
  }

  lemma StepKeepsInv(s: State, step: Step)
    requires Inv(s) && Enabled(s, step)
    ensures Inv(Apply(s, step))
  {
    QueueInvKept(s, step);
    LifeKept(s, step);
    ThreadsKept(s, step);
    ShutdownKept(s, step);
    BooksKept(s, step);
    OneStretchKept(s, step);
  }

  lemma {:induction false} RunKeepsInv(s: State, steps: seq<Step>)
    requires Inv(s) && Exec(s, steps).Some?
    ensures Inv(Exec(s, steps).value)
  {
    if steps != [] {
      RunKeepsInv(s, steps[..|steps| - 1]);
      StepKeepsInv(Exec(s, steps[..|steps| - 1]).value, steps[|steps| - 1]);
    }
  }

  lemma ReachableInv(s: State)
    requires Reachable(s)
    ensures Inv(s)
  {
    var maxSize: Int32, efdOpen: bool, steps :| Exec(Init(maxSize, efdOpen), steps) == Some(s);
    RunKeepsInv(Init(maxSize, efdOpen), steps);
  }

  /** Every server run is a queue run, so whatever holds of all queue runs holds inside the server. */
  lemma {:induction false} QueueRun(maxSize: Int32, efdOpen: bool, steps: seq<Step>)
    requires Exec(Init(maxSize, efdOpen), steps).Some?
    ensures Q.Reachable(Exec(Init(maxSize, efdOpen), steps).value.sys)
  {
    if steps == [] {
      assert Q.Exec(Q.Init(maxSize, efdOpen), []) == Some(Q.Init(maxSize, efdOpen));
    } else {
      var front, step := steps[..|steps| - 1], steps[|steps| - 1];
      QueueRun(maxSize, efdOpen, front);
      var before := Exec(Init(maxSize, efdOpen), front).value;
      var q := QueueStep(before, step);
      if q.Some? {
        Q.ReachableStep(before.sys, q.value);
      }
    }
  }

  lemma QueueReachable(s: State)
    requires Reachable(s)
    ensures Q.Reachable(s.sys)
  {
    var maxSize: Int32, efdOpen: bool, steps :| Exec(Init(maxSize, efdOpen), steps) == Some(s);
    QueueRun(maxSize, efdOpen, steps);
  }

  // ---------------------------------------------------------------- what every run guarantees

  /** However often start and stop are called, at most one worker is alive. */
  lemma AtMostOneWorker(s: State, w: nat, w': nat)
    requires Reachable(s) && w < |s.workers| && w' < |s.workers|
    requires s.workers[w] != Ended && s.workers[w'] != Ended
    ensures w == w' && s.handle == Some(w)
  {
    ReachableInv(s);
  }

  /** When stop returns, every worker has ended and the queue is empty or holds the one late message. */
  lemma StopReturns(s: State)
    requires Reachable(s) && Enabled(s, StopJoin)
    ensures var s' := Apply(s, StopJoin);
            && (forall w :: 0 <= w < |s'.workers| ==> s'.workers[w] == Ended)
            && |s'.sys.q.items| <= 1
            && (s'.sys.q.items != [] ==> s'.late == Some(s'.sys.q.items[0]))
            && s'.sys.q.stopped && !s'.open
            && s'.control == Ready && s'.handle.None? && s'.stops == s.stops + 1
  {
    ReachableInv(s);
  }

  /** The late message is what the worker held when the socket closed, or what its last receive brought. */
  lemma LateWasInHand(s: State, step: Step)
    requires Reachable(s) && Enabled(s, step)
    ensures s.open ==> s.late.None?
    ensures s.open && step == StopCall && s.handle.Some? ==>
              s.handle.value < |s.workers| && Apply(s, step).late == HeldBy(s.workers[s.handle.value])
    ensures !s.open && Apply(s, step).late != s.late ==>
              s.late.None? && step.EndReceive? && s.workers[step.w] == Receiving(true)
  {
    ReachableInv(s);
  }

  /** Nothing enters the queue any more once a stop has returned, whatever is called afterwards. */
  lemma {:induction false} NothingAddedAfterStop(s: State, steps: seq<Step>)
    requires Reachable(s) && s.stops > 0 && Exec(s, steps).Some?
    ensures var s' := Exec(s, steps).value;
            s'.sys.accepted == s.sys.accepted && |s'.sys.q.items| <= |s.sys.q.items| && s'.stops > 0
  {
    ReachableInv(s);
    if steps != [] {
      var front, step := steps[..|steps| - 1], steps[|steps| - 1];
      NothingAddedAfterStop(s, front);
      RunKeepsInv(s, front);
      OneStepAddsNothing(Exec(s, front).value, step);
    }
  }

  lemma OneStepAddsNothing(s: State, step: Step)
    requires Inv(s) && s.stops > 0 && Enabled(s, step)
    ensures var s' := Apply(s, step);
            s'.sys.accepted == s.sys.accepted && |s'.sys.q.items| <= |s.sys.q.items| && s'.stops > 0
  {
    if step.AppStep? {
      GetStepOnlyRemoves(s.sys, step.step);
    }
  }

  /** After a stop has stopped the queue no application thread sleeps, and each get in progress returns. */
  lemma NoGetBlocksAfterStop(s: State, t: Q.Tid)
    requires Reachable(s) && s.stops > 0 && t.App? && t in s.sys.threads && s.sys.threads[t].Waiting?
    ensures Enabled(s, AppStep(Q.Evaluate(t)))
    ensures Apply(s, AppStep(Q.Evaluate(t))).sys.threads[t].Returning?
  {
    ReachableInv(s);
    QueueReachable(s);
    Q.NoGetBlocksAfterStop(s.sys, t);
  }

  /** stop() does something exactly on a server that was once started: on any other it stops nothing. */
  lemma OnlyStartedServersStop(s: State)
    requires Reachable(s)
    ensures s.sys.q.stopped || !s.open ==> |s.workers| > 0
    ensures s.control == Ready ==> (s.workers == [] <==> Apply(s, StopCall) == s && !s.sys.q.stopped)
  {
    ReachableInv(s);
  }

  // Without a worker nothing enters the queue.
  lemma AcceptsNothing(s: State, step: Step)
    requires Enabled(s, step) && Apply(s, step).workers == []
    ensures s.workers == [] && Apply(s, step).sys.accepted == s.sys.accepted
  {
    if !step.Handle? && !step.EndReceive? {
      BooksUntouched(s, step);
    }
  }

  lemma {:induction false} NothingWithoutWorkers(maxSize: Int32, efdOpen: bool, steps: seq<Step>)
    requires Exec(Init(maxSize, efdOpen), steps).Some? && Exec(Init(maxSize, efdOpen), steps).value.workers == []
    ensures Exec(Init(maxSize, efdOpen), steps).value.sys.accepted == []
  {
    if steps != [] {
      AcceptsNothing(Exec(Init(maxSize, efdOpen), steps[..|steps| - 1]).value, steps[|steps| - 1]);
      NothingWithoutWorkers(maxSize, efdOpen, steps[..|steps| - 1]);
    }
  }

  predicate WaitsForever(s: State, t: Q.Tid) {
    t.App? && t in s.sys.threads && s.sys.threads[t].Waiting? && s.sys.threads[t].mode == Q.Forever
  }

  lemma QueuedWasAccepted(s: Q.State)
    requires Q.Shape(s)
    ensures s.q.items != [] ==> s.accepted != []
  {
    if s.q.items != [] {
      assert s.stamps[0] < |s.accepted|;
    }
  }

  lemma StepKeepsWaiting(s: State, step: Step, t: Q.Tid)
    requires Inv(s) && s.workers == [] && s.sys.accepted == [] && WaitsForever(s, t)
    requires Enabled(s, step) && step != Start
    ensures Apply(s, step).workers == [] && WaitsForever(Apply(s, step), t)
  {
    QueuedWasAccepted(s.sys);
  }

  /**
   * A get that waits for ever on a server that was never started waits through every schedule in which nobody starts
   * it, however often stop is called.
   */
  lemma {:induction false} UnstartedGetWaits(s: State, t: Q.Tid, steps: seq<Step>)
    requires Reachable(s) && s.workers == [] && WaitsForever(s, t) && Start !in steps && Exec(s, steps).Some?
    ensures var s' := Exec(s, steps).value; Reachable(s') && s'.workers == [] && WaitsForever(s', t)
  {
    if steps != [] {
      var front, step := steps[..|steps| - 1], steps[|steps| - 1];
      UnstartedGetWaits(s, t, front);
      var before := Exec(s, front).value;
      ReachableInv(before);
      AcceptedNothing(before);
      StepKeepsWaiting(before, step, t);
      ReachableStep(before, step);
    }
  }

  lemma AcceptedNothing(s: State)
    requires Reachable(s) && s.workers == []
    ensures s.sys.accepted == []
  {
    var maxSize: Int32, efdOpen: bool, steps :| Exec(Init(maxSize, efdOpen), steps) == Some(s);
    NothingWithoutWorkers(maxSize, efdOpen, steps);
  }

  lemma ReachableStep(s: State, step: Step)
    requires Reachable(s) && Enabled(s, step)
    ensures Reachable(Apply(s, step))
  {
    var maxSize: Int32, efdOpen: bool, steps :| Exec(Init(maxSize, efdOpen), steps) == Some(s);
    assert (steps + [step])[..|steps|] == steps;
    assert Exec(Init(maxSize, efdOpen), steps + [step]) == Some(Apply(s, step));
  }

  /** There is such a get: one called on a new server falls asleep, and stop leaves it asleep. */
  lemma StopWakesNobody(maxSize: Int32, efdOpen: bool, n: nat, sel: Selector) returns (s: State)
    ensures Reachable(s) && s.workers == [] && WaitsForever(s, Q.App(n)) && Q.IsAsleep(s.sys, Q.App(n))
    ensures Enabled(s, StopCall) && Apply(s, StopCall) == s
  {
    s := Init(maxSize, efdOpen);
    assert Exec(s, []) == Some(s);
    var call, run := AppStep(Q.CallGet(Q.App(n), Q.Forever, sel)), AppStep(Q.Evaluate(Q.App(n)));
    ReachableStep(s, call);
    s := Apply(s, call);
    ReachableStep(s, run);
    s := Apply(s, run);
  }

  /** How many steps a worker still has to take once the socket is closed. */
  function Rank(pc: WorkerPC): nat {
    match pc
    case Receiving(open) => if open then 5 else 1
    case Holding(_) => 4
    case Adding => 3
    case AtTop => 2
    case Ended => 0
  }

  function WorkerStep(w: nat, pc: WorkerPC): Step {
    match pc
    case AtTop => BeginReceive(w)
    case Receiving(_) => EndReceive(w, Fail(0))
    case Holding(_) => Handle(w)
    case _ => NotifyAdded(w)
  }

  /** With the socket closed a live worker can always move, ... */
  lemma WorkerMovesOn(s: State, w: nat)
    requires Reachable(s) && !s.open && w < |s.workers| && s.workers[w] != Ended
    ensures Enabled(s, WorkerStep(w, s.workers[w]))
  {
    ReachableInv(s);
  }

  predicate IsStepOf(step: Step, w: nat) {
    match step
    case BeginReceive(v) => v == w
    case EndReceive(v, _) => v == w
    case Handle(v) => v == w
    case NotifyAdded(v) => v == w
    case _ => false
  }

  /** ... every step of its own brings it nearer its end, and no step of any thread sets it back. */
  lemma EveryStepCounts(s: State, w: nat, step: Step)
    requires Life(s) && !s.open && w < |s.workers| && Enabled(s, step)
    ensures !Apply(s, step).open
    ensures Rank(Apply(s, step).workers[w]) <= Rank(s.workers[w]) <= 5
    ensures IsStepOf(step, w) ==> Rank(Apply(s, step).workers[w]) < Rank(s.workers[w])
  {
  }

  /** How many steps of the worker and of the thread in stop are left before stop returns. */
  function ToGo(s: State): nat
    requires s.handle.Some? && s.handle.value < |s.workers|
  {
    Rank(s.workers[s.handle.value]) + if s.control == Closing then 2 else 1
  }

  /** A step of the worker or of stop that can be made while stop is under way. */
  function NextOfStop(s: State): Step
    requires s.handle.Some? && s.handle.value < |s.workers|
  {
    var w := s.handle.value;
    if s.control == Closing then StopQueueNow
    else if s.workers[w] == Ended then StopJoin
    else WorkerStep(w, s.workers[w])
  }

  lemma StopIsNeverStuck(s: State)
    requires Inv(s) && s.control != Ready
    ensures Enabled(s, NextOfStop(s))
  {
    assert Q.Shape(s.sys);
  }

  lemma StopAdvances(s: State, step: Step)
    requires Inv(s) && s.control != Ready && Enabled(s, step) && step != StopJoin
    ensures var s' := Apply(s, step);
            && s'.control != Ready && s'.handle == s.handle && |s'.workers| == |s.workers|
            && ToGo(s') <= ToGo(s) && (!step.AppStep? ==> ToGo(s') < ToGo(s))
  {
    EveryStepCounts(s, s.handle.value, step);
  }

  /** The steps in a schedule that are not the application's. */
  function OwnSteps(steps: seq<Step>): nat {
    if steps == [] then 0
    else OwnSteps(steps[..|steps| - 1]) + if steps[|steps| - 1].AppStep? then 0 else 1
  }

  /**
   * stop returns: in whatever schedule it has not returned yet, the worker and the thread in stop have made at most
   * seven steps between them, the application any number, and one of the two can move. So it takes no more than
   * not being starved for stop to return.
   */
  lemma {:induction false} StopComesToAnEnd(s: State, steps: seq<Step>)
    requires Reachable(s) && s.control != Ready && StopJoin !in steps && Exec(s, steps).Some?
    ensures var s' := Exec(s, steps).value;
            && s'.control != Ready && s'.handle.Some? && s'.handle.value < |s'.workers|
            && s.handle.Some? && s.handle.value < |s.workers|
            && OwnSteps(steps) + ToGo(s') <= ToGo(s) <= 7
            && Enabled(s', NextOfStop(s'))
  {
    ReachableInv(s);
    RunKeepsInv(s, steps);
    if steps != [] {
      var front := steps[..|steps| - 1];
      StopComesToAnEnd(s, front);
      RunKeepsInv(s, front);
      StopAdvances(Exec(s, front).value, steps[|steps| - 1]);
    }
    StopIsNeverStuck(Exec(s, steps).value);
  }

  /**
   * PING never reaches the application: not into the queue, not into a get's result; and each PING taken
   * off the socket was answered once, to its sender, in order.
   */
  lemma PingIsolation(s: State)
    requires Reachable(s)
    ensures forall i :: 0 <= i < |s.sys.q.items| ==> !IsPing(s.sys.q.items[i])
    ensures forall i :: 0 <= i < |s.sys.accepted| ==> !IsPing(s.sys.accepted[i])
    ensures s.replies == PingSenders(s.trace)
  {
    ReachableInv(s);
    assert Q.Shape(s.sys);
    forall i | 0 <= i < |s.sys.q.items|
      ensures !IsPing(s.sys.q.items[i])
    {
      assert s.sys.accepted[s.sys.stamps[i]] == s.sys.q.items[i];
    }
  }

  /** A schedule of one step more. */
  lemma ExecSnoc(s: State, steps: seq<Step>, step: Step)
    ensures Exec(s, steps + [step]) ==
            var before := Exec(s, steps);
            if before.Some? && Enabled(before.value, step) then Some(Apply(before.value, step)) else None
  {
    assert (steps + [step])[..|steps|] == steps;
  }

  /** The steps of one pass of the worker's loop when nothing comes between them. */
  function PassSteps(w: nat, e: Event): seq<Step> {
    [BeginReceive(w), EndReceive(w, e)] + HandleSteps(w, e)
  }

  function HandleSteps(w: nat, e: Event): seq<Step> {
    if e.Fail? then [] else if IsPing(e.m) then [Handle(w)] else [Handle(w), NotifyAdded(w)]
  }

  lemma AfterReceive(s: State, w: nat, e: Event) returns (s': State)
    requires s.open && IsAt(s, w, AtTop)
    ensures Exec(s, [BeginReceive(w), EndReceive(w, e)]) == Some(s')
    ensures IsAt(s', w, if e.Fail? then Ended else Holding(e.m))
    ensures s'.sys == s.sys && s'.replies == s.replies
    ensures s'.trace == if e.Fail? then s.trace + [e] else s.trace
  {
    ExecSnoc(s, [], BeginReceive(w));
    assert [] + [BeginReceive(w)] == [BeginReceive(w)];
    ExecSnoc(s, [BeginReceive(w)], EndReceive(w, e));
    assert [BeginReceive(w)] + [EndReceive(w, e)] == [BeginReceive(w), EndReceive(w, e)];
    s' := Exec(s, [BeginReceive(w), EndReceive(w, e)]).value;
  }

  lemma OutsideTheQueue(s: State, w: nat)
    requires Reachable(s) && IsAt(s, w, AtTop)
    ensures |s.sys.stamps| == |s.sys.q.items| && Q.Worker(w) !in s.sys.threads
  {
    ReachableInv(s);
  }

  lemma AfterPing(s: State, w: nat, m: Received)
    requires IsAt(s, w, Holding(m)) && IsPing(m)
    ensures Enabled(s, Handle(w))
    ensures var s' := Apply(s, Handle(w));
            IsAt(s', w, AtTop) && s'.sys == s.sys && s'.replies == s.replies + [m.from] && s'.trace == s.trace + [Msg(m)]
  {
  }

  lemma AfterMessage(s: State, w: nat, m: Received)
    requires IsAt(s, w, Holding(m)) && !IsPing(m) && |s.sys.stamps| == |s.sys.q.items| && Q.Worker(w) !in s.sys.threads
    ensures Enabled(s, Handle(w)) && Enabled(Apply(s, Handle(w)), NotifyAdded(w))
    ensures var s' := Apply(Apply(s, Handle(w)), NotifyAdded(w));
            IsAt(s', w, AtTop) && s'.sys.q == AddTo(s.sys.q, m) && s'.replies == s.replies && s'.trace == s.trace + [Msg(m)]
  {
  }

  /**
   * The worker's steps in a row do what Server.GenericServer.TaskPass promises of one pass of the loop: a failure ends
   * the worker and changes nothing, a PING gets one reply to its sender, anything else is added to the queue.
   */
  lemma PassIsTaskPass(s: State, w: nat, e: Event) returns (s': State)
    requires Reachable(s) && s.open && IsAt(s, w, AtTop)
    ensures Exec(s, PassSteps(w, e)) == Some(s')
    ensures IsAt(s', w, if e.Fail? then Ended else AtTop)
    ensures s'.sys.q == if e.Fail? || IsPing(e.m) then s.sys.q else AddTo(s.sys.q, e.m)
    ensures s'.replies == if e.Msg? && IsPing(e.m) then s.replies + [e.m.from] else s.replies
    ensures s'.trace == s.trace + [e]
  {
    OutsideTheQueue(s, w);
    var begun := [BeginReceive(w), EndReceive(w, e)];
    s' := AfterReceive(s, w, e);
    if e.Fail? {
      assert PassSteps(w, e) == begun;
    } else if IsPing(e.m) {
      AfterPing(s', w, e.m);
      ExecSnoc(s, begun, Handle(w));
      s' := Apply(s', Handle(w));
      assert PassSteps(w, e) == begun + [Handle(w)];
    } else {
      AfterMessage(s', w, e.m);
      ExecSnoc(s, begun, Handle(w));
      ExecSnoc(s, begun + [Handle(w)], NotifyAdded(w));
      s' := Apply(Apply(s', Handle(w)), NotifyAdded(w));
      assert PassSteps(w, e) == (begun + [Handle(w)]) + [NotifyAdded(w)];
    }
  }

  /** The queue received every message but the PINGs and the ones that found it full. */
  lemma OnlyFullQueueDrops(s: State)
    requires Reachable(s)
    ensures OfferedOf(s.offers) == NonPing(s.trace) && TakenOf(s.offers) == s.sys.accepted
    ensures forall i :: 0 <= i < |s.offers| && !s.offers[i].taken ==> s.offers[i].queued == Limit(s.sys.q.maxSize)
    ensures 0 <= s.sys.q.maxSize ==>
              forall i :: 0 <= i < |s.offers| ==>
                            s.offers[i].queued <= s.sys.q.maxSize && (s.offers[i].taken <==> s.offers[i].queued < s.sys.q.maxSize)
  {
    ReachableInv(s);
  }

  /** start starts a worker unless one is already there to be joined, and does nothing else. */
  lemma StartStarts(s: State)
    requires Reachable(s) && s.control == Ready
    ensures Enabled(s, Start)
    ensures s.handle.Some? ==> Apply(s, Start) == s
    ensures s.handle.None? ==>
              var s', w := Apply(s, Start), |s.workers|;
              && s'.workers == s.workers + [AtTop] && s'.handle == Some(w) && Enabled(s', BeginReceive(w))
              && s'.sys == s.sys && s'.open == s.open && s'.replies == s.replies
  {
  }

  /** stop with a worker to be joined closes the socket and goes on to the queue, each time it is called; else it does nothing. */
  lemma StopStops(s: State)
    requires Reachable(s) && s.control == Ready
    ensures Enabled(s, StopCall)
    ensures s.handle.None? ==> Apply(s, StopCall) == s
    ensures s.handle.Some? ==>
              var s' := Apply(s, StopCall);
              && !s'.open && s'.control == Closing && s'.handle == s.handle && s'.workers == s.workers && s'.sys == s.sys
              && Enabled(s', StopQueueNow) && Apply(s', StopQueueNow).sys.q == StopQueue(s.sys.q)
              && Apply(s', StopQueueNow).control == Joining
  {
    ReachableInv(s);
    assert Q.Shape(s.sys);
  }

  lemma {:induction false} ExecConcat(s: State, a: seq<Step>, b: seq<Step>)
    requires Exec(s, a).Some?
    ensures Exec(s, a + b) == Exec(Exec(s, a).value, b)
  {
    if b == [] {
      assert a + b == a;
    } else {
      var front, last := b[..|b| - 1], b[|b| - 1];
      ExecConcat(s, a, front);
      ExecSnoc(s, a + front, last);
      ExecSnoc(Exec(s, a).value, front, last);
      assert a + b == (a + front) + [last] && b == front + [last];
    }
  }

  lemma ExecOne(s: State, step: Step)
    requires Enabled(s, step)
    ensures Exec(s, [step]) == Some(Apply(s, step))
  {
    assert [step][..0] == [];
    assert Exec(s, []) == Some(s);
  }

  /** A new server that is started queues the first message that comes, or answers it if it is a PING. */
  lemma FirstEventDealtWith(n: Int32, efdOpen: bool, m: Received) returns (s: State)
    requires n != 0
    ensures Exec(Init(n, efdOpen), [Start] + PassSteps(0, Msg(m))) == Some(s)
    ensures s.sys.q.items == if IsPing(m) then [] else [m]
    ensures s.replies == if IsPing(m) then [m.from] else []
  {
    var s0 := Init(n, efdOpen);
    assert Exec(s0, []) == Some(s0);
    ExecOne(s0, Start);
    ReachableStep(s0, Start);
    ExecConcat(s0, [Start], PassSteps(0, Msg(m)));
    s := PassIsTaskPass(Apply(s0, Start), 0, Msg(m));
  }

  /** The application's threads may do in the server whatever a get may do in the queue. */
  lemma GetsGoOn(s: State, step: Q.Step)
    requires Q.Enabled(s.sys, step) && step.t.App? && !step.Add? && !step.Notify? && !step.Clear? && !step.Stop?
    ensures Enabled(s, AppStep(step)) && Apply(s, AppStep(step)).sys == Q.Apply(s.sys, step)
  {
  }

  lemma NextStep(s: State, step: Step) returns (s': State)
    requires Reachable(s) && Enabled(s, step)
    ensures s' == Apply(s, step) && Reachable(s')
  {
    ReachableStep(s, step);
    s' := Apply(s, step);
  }

  // A worker in receive when the socket is closed under it.
  lemma ClosedWhileReceiving(n: Int32, efdOpen: bool) returns (s: State)
    ensures Reachable(s) && s.workers == [Receiving(true)] && s.handle == Some(0) && s.control == Closing && s.stops == 0
    ensures s.late.None? && s.sys == Q.Init(n, efdOpen) && !s.open
  {
    s := Init(n, efdOpen);
    assert Exec(s, []) == Some(s);
    s := NextStep(s, Start);
    s := NextStep(s, BeginReceive(0));
    s := NextStep(s, StopCall);
  }

  // It still brings in a message, which is queued after the queue was stopped.
  lemma LateMessageQueued(n: Int32, efdOpen: bool, m: Received) returns (s: State)
    requires n != 0 && !IsPing(m)
    ensures Reachable(s) && s.workers == [Adding] && s.handle == Some(0) && s.control == Joining && s.stops == 0
    ensures s.sys.q.items == [m] && !s.open
  {
    s := ClosedWhileReceiving(n, efdOpen);
    s := NextStep(s, EndReceive(0, Msg(m)));
    s := NextStep(s, StopQueueNow);
    s := NextStep(s, Handle(0));
  }

  /** The bound of StopReturns is met: a message that came in while stop closed the socket is still queued when it has returned. */
  lemma LateMessageStays(n: Int32, efdOpen: bool, m: Received) returns (s: State)
    requires n != 0 && !IsPing(m)
    ensures Reachable(s) && s.control == Ready && s.stops == 1 && s.sys.q.items == [m]
  {
    s := LateMessageQueued(n, efdOpen, m);
    ReachableInv(s);
    s := NextStep(s, NotifyAdded(0));
    s := NextStep(s, BeginReceive(0));
    s := NextStep(s, EndReceive(0, Fail(0)));
    s := NextStep(s, StopJoin);
  }

  // A get asleep on a new server.
  lemma AsleepOnNewServer(n: Int32, efdOpen: bool, mode: Q.Mode, sel: Selector) returns (s: State)
    requires mode != Q.Immediate
    ensures Reachable(s) && s.workers == [] && s.handle.None? && s.control == Ready && s.open
    ensures s.sys.q == Q.Init(n, efdOpen).q && s.sys.stamps == [] && s.sys.accepted == [] && s.sys.returned == []
    ensures s.sys.threads == map[Q.App(0) := Q.Waiting(sel, mode, Q.Asleep, None)]
  {
    s := Init(n, efdOpen);
    assert Exec(s, []) == Some(s);
    s := NextStep(s, AppStep(Q.CallGet(Q.App(0), mode, sel)));
    s := NextStep(s, AppStep(Q.Evaluate(Q.App(0))));
  }

  // ... while a worker that was started holds a first message, ...
  lemma AsleepWhileHolding(n: Int32, efdOpen: bool, mode: Q.Mode, sel: Selector, m: Received) returns (s: State)
    requires mode != Q.Immediate
    ensures Reachable(s) && s.workers == [Holding(m)]
    ensures s.sys.q == Q.Init(n, efdOpen).q && s.sys.stamps == [] && s.sys.accepted == [] && s.sys.returned == []
    ensures s.sys.threads == map[Q.App(0) := Q.Waiting(sel, mode, Q.Asleep, None)]
  {
    s := AsleepOnNewServer(n, efdOpen, mode, sel);
    s := NextStep(s, Start);
    s := NextStep(s, BeginReceive(0));
    s := NextStep(s, EndReceive(0, Msg(m)));
  }

  // ... and woken once the worker has queued it.
  lemma WokenByMessage(n: Int32, efdOpen: bool, mode: Q.Mode, sel: Selector, m: Received) returns (s: State)
    requires mode != Q.Immediate && n != 0 && !IsPing(m)
    ensures Reachable(s) && s.sys.q.items == [m] && s.sys.stamps == [0] && s.sys.accepted == [m] && s.sys.returned == []
    ensures Q.App(0) in s.sys.threads && s.sys.threads[Q.App(0)] == Q.Waiting(sel, mode, Q.Woken(false), None)
  {
    s := AsleepWhileHolding(n, efdOpen, mode, sel, m);
    s := NextStep(s, Handle(0));
    s := NextStep(s, NotifyAdded(0));
  }

  /** A run from end to end: a get that sleeps on a new server is given the first message that comes and matches. */
  lemma SleeperIsServed(n: Int32, efdOpen: bool, mode: Q.Mode, sel: Selector, m: Received) returns (s: State)
    requires mode != Q.Immediate && n != 0 && !IsPing(m) && Matches(m, sel)
    ensures Reachable(s) && s.sys.q.items == [] && s.sys.accepted == [m]
    ensures s.sys.returned == [Q.Return(Q.App(0), sel, Some(0))]
  {
    s := WokenByMessage(n, efdOpen, mode, sel, m);
    assert FirstMatch([m], sel) == 0;
    s := NextStep(s, AppStep(Q.Evaluate(Q.App(0))));
    s := NextStep(s, AppStep(Q.ReturnGet(Q.App(0))));
  }

  lemma {:induction false} AllTaken(offers: seq<Offer>)
    requires forall i :: 0 <= i < |offers| ==> offers[i].taken
    ensures TakenOf(offers) == OfferedOf(offers)
  {
    if offers != [] {
      AllTaken(offers[..|offers| - 1]);
    }
  }
}
