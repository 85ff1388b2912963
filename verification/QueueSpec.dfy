/** The queue's critical sections as functions on its abstract state. */
module QueueSpec {
  import opened Wrappers
  import opened Messages

  // The largest value an eventfd counter can hold.
  const EFD_MAX: nat := 0xFFFF_FFFF_FFFF_FFFE

  datatype QState = QState(items: seq<Received>, stopped: bool, maxSize: Int32, efdOpen: bool, count: nat)

  /** The bound compared with: the signed size converted to the host's 64-bit unsigned size. */
  function Limit(maxSize: Int32): nat {
    if 0 <= maxSize then maxSize else 0x1_0000_0000_0000_0000 + maxSize
  }

  predicate Accepts(q: QState) {
    |q.items| < Limit(q.maxSize)
  }

  predicate HasMatch(q: QState, sel: Selector) {
    exists i :: 0 <= i < |q.items| && Matches(q.items[i], sel)
  }

  /** Index of the first message that matches, or the length when none does. */
  function FirstMatch(items: seq<Received>, sel: Selector): (k: nat)
    ensures k <= |items|
    ensures forall j :: 0 <= j < k ==> !Matches(items[j], sel)
    ensures k < |items| ==> Matches(items[k], sel)
  {
    if items == [] || Matches(items[0], sel) then 0 else 1 + FirstMatch(items[1..], sel)
  }

  function RemoveAt<T>(s: seq<T>, k: nat): (r: seq<T>)
    requires k < |s|
    ensures |r| == |s| - 1
  {
    s[..k] + s[k + 1..]
  }

  function CountWritten(efdOpen: bool, count: nat): nat {
    if efdOpen && count < EFD_MAX then count + 1 else count
  }

  function CountRead(efdOpen: bool, count: nat): nat {
    if efdOpen && count > 0 then count - 1 else count
  }

  function AddTo(q: QState, m: Received): QState {
    if Accepts(q) then q.(items := q.items + [m], count := CountWritten(q.efdOpen, q.count)) else q
  }

  function Found(q: QState, sel: Selector): Option<Received> {
    var k := FirstMatch(q.items, sel);
    if k < |q.items| then Some(q.items[k]) else None
  }

  function TakeFrom(q: QState, sel: Selector): QState {
    var k := FirstMatch(q.items, sel);
    if k < |q.items| then q.(items := RemoveAt(q.items, k), count := CountRead(q.efdOpen, q.count)) else q
  }

  lemma FoundIffMatch(q: QState, sel: Selector)
    ensures Found(q, sel).Some? <==> HasMatch(q, sel)
    ensures Found(q, sel).Some? ==> Matches(Found(q, sel).value, sel)
  {
  }

  function ClearAll(q: QState): QState {
    q.(items := [], count := if q.efdOpen then 0 else q.count)
  }

  function StopQueue(q: QState): QState {
    ClearAll(q).(stopped := true)
  }

  /** What one critical section of another thread can do to the queue. */
  datatype Op = AddOp(m: Received) | TakeOp(sel: Selector) | ClearOp | StopOp

  function ApplyOp(q: QState, op: Op): QState {
    match op
    case AddOp(m) => AddTo(q, m)
    case TakeOp(sel) => TakeFrom(q, sel)
    case ClearOp => ClearAll(q)
    case StopOp => StopQueue(q)
  }

  function ApplyOps(q: QState, ops: seq<Op>): QState
    decreases |ops|
  {
    if ops == [] then q else ApplyOps(ApplyOp(q, ops[0]), ops[1..])
  }

  /** The poll descriptor tells the truth about the queue. */
  predicate Agrees(q: QState) {
    q.efdOpen ==> q.count == |q.items|
  }

  predicate Bounded(q: QState) {
    |q.items| <= Limit(q.maxSize)
  }
}
